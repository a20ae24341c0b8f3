/**
 * Streaming /state. One side writes a response in batches and folds an order-independent digest while it
 * writes; the other side is scanned as it arrives and folded into the same digest. Neither body is ever
 * held, so the digests are all there is to compare.
 *
 * What JSON parsing, redaction and sha256 do to one event is a parameter. A body is the sequence of
 * tokens its decoder hands out: structure, object keys, and whole values where the code decodes one.
 */
module StateStream {
  import opened Basics

  // ---------------------------------------------------------------- events and their codec

  datatype Event = Event(json: string, rejectedReason: string, redactedBy: string)

  /** The depth field of a serialised event, as the raw token it is checked on. */
  datatype Depth = NoDepth | QuotedDepth | IntegerDepth(n: int) | OtherDepth

  const CANONICAL_MAX: int := 0x1F_FFFF_FFFF_FFFF
  const CANONICAL_MIN: int := -0x1F_FFFF_FFFF_FFFF

  predicate InCanonicalRange(d: Depth) {
    match d
    case NoDepth => true
    case QuotedDepth => true
    case IntegerDepth(n) => CANONICAL_MIN <= n <= CANONICAL_MAX
    case OtherDepth => false
  }

  datatype Codec = Codec(
    serialise: Event -> Option<string>,
    depth: string -> Depth,
    canonical: string -> Option<string>,
    hash: string -> nat)
  {
    /** The contribution of one event, which must have a canonical form. */
    function HashOf(raw: string): nat {
      match canonical(raw)
      case Some(c) => hash(c)
      case None => 0
    }
  }

  // ---------------------------------------------------------------- the digest

  const MODULUS: int := 0x1_0000_0000_0000_0000_0000_0000_0000_0000_0000_0000_0000_0000_0000_0000_0000_0000

  /** A running sum of hashes; the digest is the sum modulo 2^256. */
  datatype Accumulator = Accumulator(sum: nat, count: nat) {
    function Add(h: nat): Accumulator {
      Accumulator(sum + h, count + 1)
    }

    function Digest(): nat {
      sum % MODULUS
    }
  }

  datatype StateResult = StateResult(pdus: int, authChain: int, pduDigest: nat, authChainDigest: nat) {
    predicate Agrees(other: StateResult) {
      pduDigest == other.pduDigest && authChainDigest == other.authChainDigest
    }
  }

  function SumOf(codec: Codec, raws: seq<string>): nat {
    if raws == [] then 0 else SumOf(codec, raws[..|raws| - 1]) + codec.HashOf(raws[|raws| - 1])
  }

  lemma {:induction false} SumJoin(codec: Codec, a: seq<string>, b: seq<string>)
    ensures SumOf(codec, a + b) == SumOf(codec, a) + SumOf(codec, b)
  {
    if b == [] {
      assert a + b == a;
    } else {
      assert (a + b)[..|a + b| - 1] == a + b[..|b| - 1];
      SumJoin(codec, a, b[..|b| - 1]);
    }
  }

  lemma SumMiddle(codec: Codec, a: seq<string>, raw: string, b: seq<string>)
    ensures SumOf(codec, a + ([raw] + b)) == codec.HashOf(raw) + SumOf(codec, a + b)
  {
    SumJoin(codec, a, [raw] + b);
    SumJoin(codec, [raw], b);
    SumJoin(codec, a, b);
    assert [raw][..0] == [];
  }

  lemma SumDrop(codec: Codec, s: seq<string>, i: nat)
    requires i < |s|
    ensures SumOf(codec, s) == codec.HashOf(s[i]) + SumOf(codec, s[..i] + s[i + 1..])
  {
    SplitAt(s, i);
    SumMiddle(codec, s[..i], s[i], s[i + 1..]);
  }

  /** The digest forgets the order of the events, and nothing else: duplicates count. */
  lemma {:induction false} SumForgetsOrder(codec: Codec, a: seq<string>, b: seq<string>)
    requires multiset(a) == multiset(b)
    ensures SumOf(codec, a) == SumOf(codec, b)
  {
    assert |multiset(a)| == |a| && |multiset(b)| == |b|;
    if a != [] {
      var i := FindFirst(a, b);
      SumDrop(codec, a, 0);
      SumDrop(codec, b, i);
      assert a[..0] + a[1..] == a[1..];
      SumForgetsOrder(codec, a[1..], b[..i] + b[i + 1..]);
    }
  }

  // ---------------------------------------------------------------- batches

  /** The events we hold and serve: rejected ones are dropped. */
  predicate Found(db: map<string, Event>, id: string) {
    id in db && db[id].rejectedReason == ""
  }

  /** The entries of ids that one chunk's callback picks: it rescans the whole list for the chunk's events. */
  function Picked(db: map<string, Event>, ids: seq<string>, chunk: seq<string>): seq<string> {
    if ids == [] then []
    else
      var before, last := Picked(db, ids[..|ids| - 1], chunk), ids[|ids| - 1];
      if last in chunk && Found(db, last) then before + [last] else before
  }

  function ChunkEnd(ids: seq<string>, start: nat, batch: int): (end: nat)
    requires start < |ids| && 0 < batch
    ensures start < end <= |ids|
  {
    if start + batch < |ids| then start + batch else |ids|
  }

  /** What all callbacks together pick. */
  function BatchedFound(db: map<string, Event>, ids: seq<string>, start: nat, batch: int): seq<string>
    requires 0 < batch
    decreases |ids| - start
  {
    if start >= |ids| then []
    else
      var end := ChunkEnd(ids, start, batch);
      Picked(db, ids, ids[start..end]) + BatchedFound(db, ids, end, batch)
  }

  ghost predicate ChunkStraddles(db: map<string, Event>, ids: seq<string>, start: nat, end: nat)
    requires start <= end <= |ids|
  {
    exists i, j :: start <= i < end && 0 <= j < |ids| && !(start <= j < end) && ids[i] == ids[j] && Found(db, ids[i])
  }

  /** Some found id stands inside a chunk and outside it as well. */
  ghost predicate Straddles(db: map<string, Event>, ids: seq<string>, start: nat, batch: int)
    requires 0 < batch
    decreases |ids| - start
  {
    start < |ids| &&
    var end := ChunkEnd(ids, start, batch);
    ChunkStraddles(db, ids, start, end) || Straddles(db, ids, end, batch)
  }

  lemma {:induction false} PickedJoin(db: map<string, Event>, a: seq<string>, b: seq<string>, chunk: seq<string>)
    ensures Picked(db, a + b, chunk) == Picked(db, a, chunk) + Picked(db, b, chunk)
  {
    if b == [] {
      assert a + b == a;
    } else {
      assert (a + b)[..|a + b| - 1] == a + b[..|b| - 1];
      PickedJoin(db, a, b[..|b| - 1], chunk);
    }
  }

  lemma {:induction false} PickedEmpty(db: map<string, Event>, ids: seq<string>, chunk: seq<string>)
    ensures Picked(db, ids, chunk) == [] <==> forall x :: x in ids ==> !(x in chunk && Found(db, x))
  {
    if ids != [] {
      assert ids == ids[..|ids| - 1] + [ids[|ids| - 1]];
      PickedEmpty(db, ids[..|ids| - 1], chunk);
    }
  }

  /** Picking by a list that holds all of ids is picking what is found. */
  lemma {:induction false} PickedAll(db: map<string, Event>, ids: seq<string>, chunk: seq<string>, whole: seq<string>)
    requires (forall x :: x in ids ==> x in chunk) && forall x :: x in ids ==> x in whole
    ensures Picked(db, ids, chunk) == Picked(db, ids, whole)
  {
    if ids != [] {
      assert ids == ids[..|ids| - 1] + [ids[|ids| - 1]];
      PickedAll(db, ids[..|ids| - 1], chunk, whole);
    }
  }

  /** A chunk picks its own found ids, and besides them exactly the occurrences elsewhere. */
  lemma ChunkPicks(db: map<string, Event>, ids: seq<string>, start: nat, end: nat)
    requires start <= end <= |ids|
    ensures var chunk := ids[start..end];
            Picked(db, ids, chunk) == Picked(db, ids[..start], chunk) + Picked(db, chunk, chunk) +
                Picked(db, ids[end..], chunk)
  {
    var chunk := ids[start..end];
    assert ids == ids[..start] + (chunk + ids[end..]);
    PickedJoin(db, ids[..start], chunk + ids[end..], chunk);
    PickedJoin(db, chunk, ids[end..], chunk);
  }

  lemma RestPicks(db: map<string, Event>, ids: seq<string>, start: nat, end: nat)
    requires start <= end <= |ids|
    ensures Picked(db, ids[start..], ids) == Picked(db, ids[start..end], ids[start..end]) + Picked(db, ids[end..], ids)
  {
    var chunk := ids[start..end];
    assert ids[start..] == chunk + ids[end..];
    PickedJoin(db, chunk, ids[end..], ids);
    PickedAll(db, chunk, chunk, ids);
  }

  lemma {:induction false} BatchedFrom(db: map<string, Event>, ids: seq<string>, start: nat, batch: int)
    requires 0 < batch && start <= |ids|
    ensures var all, rest := BatchedFound(db, ids, start, batch), Picked(db, ids[start..], ids);
            && |all| >= |rest|
            && (if Straddles(db, ids, start, batch) then |all| > |rest| else all == rest)
    decreases |ids| - start
  {
    if start < |ids| {
      var end := ChunkEnd(ids, start, batch);
      BatchedFrom(db, ids, end, batch);
      RestPicks(db, ids, start, end);
      ChunkPicks(db, ids, start, end);
      ExtraPicks(db, ids, start, end);
    }
  }

  lemma ExtraPicks(db: map<string, Event>, ids: seq<string>, start: nat, end: nat)
    requires start <= end <= |ids|
    ensures (Picked(db, ids[..start], ids[start..end]) == [] && Picked(db, ids[end..], ids[start..end]) == []) <==>
            !ChunkStraddles(db, ids, start, end)
  {
    var chunk := ids[start..end];
    PickedEmpty(db, ids[..start], chunk);
    PickedEmpty(db, ids[end..], chunk);
    if i, j :| start <= i < end && 0 <= j < |ids| && !(start <= j < end) && ids[i] == ids[j] && Found(db, ids[i]) {
      assert chunk[i - start] == ids[i];
      if j < start {
        assert ids[..start][j] == ids[j];
      } else {
        assert ids[end..][j - end] == ids[j];
      }
    } else {
      forall x | x in ids[..start] ensures !(x in chunk && Found(db, x)) {
        var j :| 0 <= j < start && ids[..start][j] == x;
        if x in chunk {
          var i :| 0 <= i < |chunk| && chunk[i] == x;
          assert ids[i + start] == ids[j];
        }
      }
      forall x | x in ids[end..] ensures !(x in chunk && Found(db, x)) {
        var j :| 0 <= j < |ids[end..]| && ids[end..][j] == x;
        if x in chunk {
          var i :| 0 <= i < |chunk| && chunk[i] == x;
          assert ids[i + start] == ids[j + end];
        }
      }
    }
  }

  /**
   * Loading in batches serves what loading at once would, in the same order, exactly when no found id
   * occurs both inside and outside some chunk: the callback rescans the whole list for every chunk.
   */
  lemma BatchedEqualsUnbatched(db: map<string, Event>, ids: seq<string>, batch: int)
    requires 0 < batch
    ensures BatchedFound(db, ids, 0, batch) == Picked(db, ids, ids) <==> !Straddles(db, ids, 0, batch)
  {
    assert ids[0..] == ids;
    BatchedFrom(db, ids, 0, batch);
  }

  /** Repeated IDs may: in chunks of one, an event that is listed twice is picked four times. */
  lemma RepeatedIdsStraddle(db: map<string, Event>, id: string)
    requires Found(db, id)
    ensures Straddles(db, [id, id], 0, 1) && |BatchedFound(db, [id, id], 0, 1)| > |Picked(db, [id, id], [id, id])|
  {
    var ids := [id, id];
    assert ids[0] == ids[1];
    BatchedFrom(db, ids, 0, 1);
    assert ids[0..] == ids;
  }

  lemma {:induction false} DistinctDoesNotStraddle(db: map<string, Event>, ids: seq<string>, start: nat, batch: int)
    requires Distinct(ids) && 0 < batch
    ensures !Straddles(db, ids, start, batch)
    decreases |ids| - start
  {
    if start < |ids| {
      DistinctDoesNotStraddle(db, ids, ChunkEnd(ids, start, batch), batch);
    }
  }

  // ---------------------------------------------------------------- the writer

  datatype Token = Open | Close | ArrayOpen | ArrayClose | Comma | Key(name: string) | Value(raw: string)

  /** The bodies of events, as served: the depth filter drops some of those found. */
  function Bodies(codec: Codec, db: map<string, Event>, found: seq<string>): seq<string>
    requires forall id :: id in found ==> id in db
  {
    if found == [] then []
    else
      var before, body := Bodies(codec, db, found[..|found| - 1]), codec.serialise(db[found[|found| - 1]]);
      if body.Some? && InCanonicalRange(codec.depth(body.value)) then before + [body.value] else before
  }

  /** Bodies are served in the order of their events. */
  lemma {:induction false} BodiesJoin(codec: Codec, db: map<string, Event>, a: seq<string>, b: seq<string>)
    requires (forall id :: id in a ==> id in db) && forall id :: id in b ==> id in db
    ensures forall id :: id in a + b ==> id in db
    ensures Bodies(codec, db, a + b) == Bodies(codec, db, a) + Bodies(codec, db, b)
  {
    if b == [] {
      assert a + b == a;
    } else {
      assert (a + b)[..|a + b| - 1] == a + b[..|b| - 1];
      BodiesJoin(codec, db, a, b[..|b| - 1]);
    }
  }

  /**
   * One event is served as its body, unless it has none or its depth is an integer outside the canonical range or no
   * integer.
   */
  lemma OneBody(codec: Codec, db: map<string, Event>, id: string)
    requires id in db
    ensures Bodies(codec, db, [id]) ==
            match codec.serialise(db[id])
            case None => []
            case Some(body) =>
              match codec.depth(body)
              case NoDepth => [body]
              case QuotedDepth => [body]
              case IntegerDepth(n) => if -9007199254740991 <= n <= 9007199254740991 then [body] else []
              case OtherDepth => []
  {
    assert [id][..0] == [];
  }

  /** The event can be rendered, and if it is served it has a canonical form. */
  predicate Renders(codec: Codec, ev: Event) {
    var body := codec.serialise(ev);
    body.Some? && (InCanonicalRange(codec.depth(body.value)) ==> codec.canonical(body.value).Some?)
  }

  lemma {:induction false} PickedFound(db: map<string, Event>, ids: seq<string>, chunk: seq<string>)
    ensures forall id :: id in Picked(db, ids, chunk) <==> id in ids && id in chunk && Found(db, id)
  {
    if ids != [] {
      assert ids == ids[..|ids| - 1] + [ids[|ids| - 1]];
      PickedFound(db, ids[..|ids| - 1], chunk);
    }
  }

  lemma {:induction false} BatchedFoundIn(db: map<string, Event>, ids: seq<string>, start: nat, batch: int)
    requires 0 < batch && start <= |ids|
    ensures forall id :: id in BatchedFound(db, ids, start, batch) <==> id in ids[start..] && Found(db, id)
    decreases |ids| - start
  {
    if start < |ids| {
      var end := ChunkEnd(ids, start, batch);
      PickedFound(db, ids, ids[start..end]);
      BatchedFoundIn(db, ids, end, batch);
      assert ids[start..] == ids[start..end] + ids[end..];
      assert forall id :: id in ids[start..end] ==> id in ids;
    }
  }

  /** A JSON array body without its brackets. */
  function ArrayBody(raws: seq<string>): seq<Token> {
    if raws == [] then []
    else if |raws| == 1 then [Value(raws[0])]
    else ArrayBody(raws[..|raws| - 1]) + [Comma, Value(raws[|raws| - 1])]
  }

  /** What one stream has put out: the tokens, the digest and the counters, all of the same events. */
  datatype Stream = Stream(tokens: seq<Token>, digest: Accumulator, written: nat, found: seq<string>)

  ghost predicate Streamed(codec: Codec, db: map<string, Event>, s: Stream, found: seq<string>) {
    && (forall id :: id in found ==> id in db && Renders(codec, db[id]))
    && s.found == found
    && var bodies := Bodies(codec, db, found);
       s.tokens == ArrayBody(bodies) && s.digest == Accumulator(SumOf(codec, bodies), |bodies|) && s.written == |bodies|
  }

  /** One event through the callback: filtered, rendered, written and digested; None is an error. */
  method StreamOne(codec: Codec, db: map<string, Event>, events: map<string, Event>, id: string, s: Stream)
      returns (r: Option<Stream>)
    requires Streamed(codec, db, s, s.found)
    requires id in events ==> id in db && events[id] == db[id]
    ensures r.Some? ==> Streamed(codec, db, r.value, if id in events && Found(db, id) then s.found + [id] else s.found)
    ensures r.None? <==> id in events && Found(db, id) && !Renders(codec, db[id])
  {
    if id !in events {
      return Some(s);
    }
    var ev := events[id];
    if ev.rejectedReason != "" {
      return Some(s);
    }
    // Collected before the depth filter, because the auth chain is computed from what was found.
    var found := s.found + [id];
    assert found[..|found| - 1] == s.found;
    var body := codec.serialise(ev);
    if body.None? {
      return None;
    }
    if !InCanonicalRange(codec.depth(body.value)) {
      return Some(s.(found := found));
    }
    var canonical := codec.canonical(body.value);
    if canonical.None? {
      return None;
    }
    ghost var bodies := Bodies(codec, db, s.found);
    assert (bodies + [body.value])[..|bodies|] == bodies;
    var tokens := s.tokens + (if s.written > 0 then [Comma] else []) + [Value(body.value)];
    assert s.tokens + [Comma] + [Value(body.value)] == s.tokens + [Comma, Value(body.value)];
    return Some(Stream(tokens, s.digest.Add(codec.hash(canonical.value)), s.written + 1, found));
  }

  ghost predicate Fails(codec: Codec, db: map<string, Event>, found: seq<string>) {
    exists id :: id in found && id in db && !Renders(codec, db[id])
  }

  lemma PickedNext(db: map<string, Event>, ids: seq<string>, chunk: seq<string>, i: nat)
    requires i < |ids|
    ensures Picked(db, ids[..i + 1], chunk) == Picked(db, ids[..i], chunk) +
            (if ids[i] in chunk && Found(db, ids[i]) then [ids[i]] else [])
  {
    assert ids[..i + 1][..i] == ids[..i];
  }

  /** One callback: the whole list is rescanned for the chunk's events. */
  method StreamChunk(codec: Codec, db: map<string, Event>, ids: seq<string>, chunk: seq<string>, s: Stream)
      returns (r: Option<Stream>)
    requires Streamed(codec, db, s, s.found)
    ensures r.Some? ==> Streamed(codec, db, r.value, s.found + Picked(db, ids, chunk))
    ensures r.None? ==> Fails(codec, db, Picked(db, ids, chunk))
  {
    var events := map id | id in chunk && id in db :: db[id];
    var out := s;
    for i := 0 to |ids|
      invariant Streamed(codec, db, out, out.found)
      invariant out.found == s.found + Picked(db, ids[..i], chunk)
    {
      PickedNext(db, ids, chunk, i);
      var next := StreamOne(codec, db, events, ids[i], out);
      if next.None? {
        PickedFound(db, ids, chunk);
        assert ids[i] in Picked(db, ids, chunk);
        return None;
      }
      out := next.value;
    }
    assert ids[..|ids|] == ids;
    r := Some(out);
  }

  const DEFAULT_EVENT_BATCH := 1000

  /** Writes the events of ids as an array body and reports what it wrote; None is an error. */
  method StreamEvents(codec: Codec, db: map<string, Event>, ids: seq<string>, batch: int) returns (r: Option<Stream>)
    ensures var all := BatchedFound(db, ids, 0, if batch <= 0 then DEFAULT_EVENT_BATCH else batch);
            if Fails(codec, db, all) then r.None? else r.Some? && Streamed(codec, db, r.value, all)
  {
    var size := if batch <= 0 then DEFAULT_EVENT_BATCH else batch;
    var s := Stream([], Accumulator(0, 0), 0, []);
    var start := 0;
    while start < |ids|
      invariant 0 <= start
      invariant Streamed(codec, db, s, s.found)
      invariant s.found + BatchedFound(db, ids, start, size) == BatchedFound(db, ids, 0, size)
      decreases |ids| - start
    {
      var end := ChunkEnd(ids, start, size);
      ghost var picked, rest := Picked(db, ids, ids[start..end]), BatchedFound(db, ids, end, size);
      assert s.found + (picked + rest) == (s.found + picked) + rest;
      var next := StreamChunk(codec, db, ids, ids[start..end], s);
      if next.None? {
        FailsWithin(codec, db, s.found, picked, rest);
        return None;
      }
      s := next.value;
      start := end;
    }
    r := Some(s);
  }

  lemma FailsWithin(codec: Codec, db: map<string, Event>, a: seq<string>, b: seq<string>, c: seq<string>)
    requires Fails(codec, db, b)
    ensures Fails(codec, db, a + b + c)
  {
    var id :| id in b && id in db && !Renders(codec, db[id]);
    ElementsJoin(a + b, c);
    ElementsJoin(a, b);
    assert id in a + b + c;
  }

  /** What the store finds of a list of ids, in batches of its own size. */
  ghost function FoundIn(db: map<string, Event>, ids: seq<string>): seq<string> {
    BatchedFound(db, ids, 0, 1000)
  }

  /** What a list of ids is served as: the found, then rendered and filtered by depth. */
  ghost function Served(codec: Codec, db: map<string, Event>, ids: seq<string>): seq<string> {
    BatchedFoundIn(db, ids, 0, DEFAULT_EVENT_BATCH);
    Bodies(codec, db, FoundIn(db, ids))
  }

  /** Of distinct ids the found are the held and unrejected ones, each once and in order, whatever the batches. */
  lemma DistinctAreFoundOnce(db: map<string, Event>, ids: seq<string>)
    requires Distinct(ids)
    ensures FoundIn(db, ids) == Picked(db, ids, ids)
    ensures forall id :: multiset(FoundIn(db, ids))[id] == if id in ids && id in db && db[id].rejectedReason == ""
            then 1 else 0
    ensures forall i, j :: 0 <= i < j < |ids| && ids[i] in FoundIn(db, ids) && ids[j] in FoundIn(db, ids) ==>
              exists k, l ::
                  0 <= k < l < |FoundIn(db, ids)| && FoundIn(db, ids)[k] == ids[i] && FoundIn(db, ids)[l] == ids[j]
  {
    BatchedEqualsUnbatched(db, ids, DEFAULT_EVENT_BATCH);
    DistinctDoesNotStraddle(db, ids, 0, DEFAULT_EVENT_BATCH);
    PickedFound(db, ids, ids);
    PickedOnce(db, ids, ids);
    forall i, j | 0 <= i < j < |ids| && ids[i] in FoundIn(db, ids) && ids[j] in FoundIn(db, ids)
      ensures exists k, l ::
              0 <= k < l < |FoundIn(db, ids)| && FoundIn(db, ids)[k] == ids[i] && FoundIn(db, ids)[l] == ids[j]
    {
      var k, l := PickedInOrder(db, ids, ids, i, j);
    }
  }

  lemma {:induction false} PickedOnce(db: map<string, Event>, ids: seq<string>, chunk: seq<string>)
    requires Distinct(ids)
    ensures forall id :: multiset(Picked(db, ids, chunk))[id] == if id in ids && id in chunk && Found(db, id) then 1
            else 0
  {
    if ids != [] {
      var front := ids[..|ids| - 1];
      PickedOnce(db, front, chunk);
      assert ids == front + [ids[|ids| - 1]];
    }
  }

  /** What is picked keeps the order of the list. */
  lemma {:induction false} PickedInOrder(db: map<string, Event>, ids: seq<string>, chunk: seq<string>, i: nat, j: nat)
      returns (k: nat, l: nat)
    requires i < j < |ids| && ids[i] in chunk && Found(db, ids[i]) && ids[j] in chunk && Found(db, ids[j])
    ensures k < l < |Picked(db, ids, chunk)| && Picked(db, ids, chunk)[k] == ids[i] &&
            Picked(db, ids, chunk)[l] == ids[j]
  {
    var n := |ids| - 1;
    if j < n {
      k, l := PickedInOrder(db, ids[..n], chunk, i, j);
    } else {
      var before := Picked(db, ids[..n], chunk);
      PickedFound(db, ids[..n], chunk);
      assert ids[..n][i] == ids[i] && ids[i] in before;
      k :| 0 <= k < |before| && before[k] == ids[i];
      l := |before|;
    }
  }

  /** The tokens of a body: two arrays under their keys. */
  function StateBody(pdus: seq<string>, authChain: seq<string>): seq<Token> {
    [Open, Key("pdus"), ArrayOpen] + ArrayBody(pdus) + [ArrayClose, Comma, Key("auth_chain"), ArrayOpen] +
        ArrayBody(authChain) + [ArrayClose, Close]
  }

  lemma FoundRender(codec: Codec, db: map<string, Event>, ids: seq<string>)
    ensures Fails(codec, db, FoundIn(db, ids)) <==> exists id :: id in ids && Found(db, id) && !Renders(codec, db[id])
  {
    BatchedFoundIn(db, ids, 0, DEFAULT_EVENT_BATCH);
    assert ids[0..] == ids;
  }

  // ---------------------------------------------------------------- the scanner as a function

  datatype Section = Pdus | AuthChain

  /** One PDU as it is handed to a visitor. */
  datatype Visit = Visit(section: Section, index: nat, canonical: string, raw: string)

  datatype Scan = Scan(pdus: int, authChain: int, visits: seq<Visit>)

  datatype ArrayScan = ArrayScan(raws: seq<string>, rest: seq<Token>)

  /** The elements of an array up to its closing bracket; None where the decoder or the canonicaliser fails. */
  function ScanItems(codec: Codec, toks: seq<Token>, first: bool): (r: Option<ArrayScan>)
    ensures r.Some? ==> |r.value.rest| < |toks|
    ensures r.Some? ==> forall raw :: raw in r.value.raws ==> codec.canonical(raw).Some?
    decreases |toks|
  {
    if toks == [] then None
    else if toks[0] == ArrayClose then Some(ArrayScan([], toks[1..]))
    else if !first && toks[0] != Comma then None
    else
      var item := if first then toks else toks[1..];
      if item == [] || !item[0].Value? || codec.canonical(item[0].raw).None? then None
      else
        match ScanItems(codec, item[1..], false)
        case None => None
        case Some(more) => Some(ArrayScan([item[0].raw] + more.raws, more.rest))
  }

  function ScanArray(codec: Codec, toks: seq<Token>): (r: Option<ArrayScan>)
    ensures r.Some? ==> |r.value.rest| < |toks|
    ensures r.Some? ==> forall raw :: raw in r.value.raws ==> codec.canonical(raw).Some?
  {
    if toks == [] || toks[0] != ArrayOpen then None else ScanItems(codec, toks[1..], true)
  }

  function VisitsOf(codec: Codec, section: Section, raws: seq<string>): (v: seq<Visit>)
    requires forall raw :: raw in raws ==> codec.canonical(raw).Some?
    ensures |v| == |raws|
  {
    if raws == [] then []
    else
      var n := |raws| - 1;
      VisitsOf(codec, section, raws[..n]) + [Visit(section, n, codec.canonical(raws[n]).value, raws[n])]
  }

  /** A count is that of the last array under the key; what was visited before stays visited. */
  function Record(codec: Codec, acc: Scan, section: Section, raws: seq<string>): Scan
    requires forall raw :: raw in raws ==> codec.canonical(raw).Some?
  {
    var visits := acc.visits + VisitsOf(codec, section, raws);
    match section
    case Pdus => Scan(|raws|, acc.authChain, visits)
    case AuthChain => Scan(acc.pdus, |raws|, visits)
  }

  function ScanFields(codec: Codec, toks: seq<Token>, first: bool, acc: Scan): Option<Scan>
    decreases |toks|
  {
    if toks == [] then None
    else if toks[0] == Close then Some(acc)
    else if !first && toks[0] != Comma then None
    else
      var field := if first then toks else toks[1..];
      if field == [] || !field[0].Key? then None
      else if field[0].name == "pdus" || field[0].name == "auth_chain" then
        match ScanArray(codec, field[1..])
        case None => None
        case Some(a) => ScanFields(codec, a.rest, false,
            Record(codec, acc, if field[0].name == "pdus" then Pdus else AuthChain, a.raws))
      else if |field| < 2 || !field[1].Value? then None
      else ScanFields(codec, field[2..], false, acc)
  }

  function ScanResponse(codec: Codec, toks: seq<Token>): Option<Scan> {
    if toks == [] || toks[0] != Open then None else ScanFields(codec, toks[1..], true, Scan(0, 0, []))
  }

  // ---------------------------------------------------------------- the scanner as the source runs it

  ghost function Prepend(raws: seq<string>, r: Option<ArrayScan>): Option<ArrayScan> {
    match r
    case None => None
    case Some(a) => Some(ArrayScan(raws + a.raws, a.rest))
  }

  /** Walks one array, visiting every PDU in it. */
  method ScanArrayLoop(codec: Codec, toks: seq<Token>, section: Section) returns (r: Option<(seq<Visit>, seq<Token>)>)
    ensures r.None? <==> ScanArray(codec, toks).None?
    ensures r.Some? ==> var a := ScanArray(codec, toks).value;
                        r.value.0 == VisitsOf(codec, section, a.raws) && r.value.1 == a.rest
  {
    if toks == [] || toks[0] != ArrayOpen {
      return None;
    }
    var rest := toks[1..];
    var visits := [];
    ghost var raws: seq<string> := [];
    assert Prepend([], ScanItems(codec, rest, true)) == ScanItems(codec, rest, true) by {
      PrependNothing(ScanItems(codec, rest, true));
    }
    while rest != [] && rest[0] != ArrayClose
      invariant forall raw :: raw in raws ==> codec.canonical(raw).Some?
      invariant visits == VisitsOf(codec, section, raws)
      invariant Prepend(raws, ScanItems(codec, rest, visits == [])) == ScanArray(codec, toks)
      decreases |rest|
    {
      if visits != [] && rest[0] != Comma {
        return None;
      }
      var item := if visits == [] then rest else rest[1..];
      if item == [] || !item[0].Value? {
        return None;
      }
      var raw := item[0].raw;
      var canonical := codec.canonical(raw);
      if canonical.None? {
        return None;
      }
      ScanItemsStep(codec, rest, visits == []);
      PrependTwice(raws, raw, ScanItems(codec, item[1..], false));
      VisitsNext(codec, section, raws, raw);
      visits := visits + [Visit(section, |visits|, canonical.value, raw)];
      raws := raws + [raw];
      rest := item[1..];
    }
    if rest == [] {
      return None;
    }
    assert raws + [] == raws;
    return Some((visits, rest[1..]));
  }

  lemma PrependNothing(r: Option<ArrayScan>)
    ensures Prepend([], r) == r
  {
    if r.Some? {
      assert [] + r.value.raws == r.value.raws;
    }
  }

  lemma PrependTwice(raws: seq<string>, raw: string, r: Option<ArrayScan>)
    ensures Prepend(raws, Prepend([raw], r)) == Prepend(raws + [raw], r)
  {
    if r.Some? {
      Assoc(raws, [raw], r.value.raws);
    }
  }

  lemma ScanItemsStep(codec: Codec, rest: seq<Token>, first: bool)
    requires rest != [] && rest[0] != ArrayClose && (first || rest[0] == Comma)
    requires var item := if first then rest else rest[1..];
             item != [] && item[0].Value? && codec.canonical(item[0].raw).Some?
    ensures var item := if first then rest else rest[1..];
            ScanItems(codec, rest, first) == Prepend([item[0].raw], ScanItems(codec, item[1..], false))
  {}

  lemma VisitsNext(codec: Codec, section: Section, raws: seq<string>, raw: string)
    requires (forall x :: x in raws ==> codec.canonical(x).Some?) && codec.canonical(raw).Some?
    ensures forall x :: x in raws + [raw] ==> codec.canonical(x).Some?
    ensures VisitsOf(codec, section, raws + [raw]) ==
            VisitsOf(codec, section, raws) + [Visit(section, |raws|, codec.canonical(raw).value, raw)]
  {
    assert (raws + [raw])[..|raws|] == raws;
  }

  /** The one parser of the far side: hands every PDU of both arrays to the visitor and counts them. */
  method ScanStateResponse(codec: Codec, toks: seq<Token>) returns (r: Option<Scan>)
    ensures r == ScanResponse(codec, toks)
  {
    if toks == [] || toks[0] != Open {
      return None;
    }
    var rest, first, acc := toks[1..], true, Scan(0, 0, []);
    while rest != [] && rest[0] != Close
      invariant ScanFields(codec, rest, first, acc) == ScanResponse(codec, toks)
      decreases |rest|
    {
      if !first {
        if rest[0] != Comma {
          return None;
        }
        rest := rest[1..];
      }
      first := false;
      if rest == [] || !rest[0].Key? {
        return None;
      }
      var name := rest[0].name;
      rest := rest[1..];
      if name == "pdus" || name == "auth_chain" {
        var section := if name == "pdus" then Pdus else AuthChain;
        var a := ScanArrayLoop(codec, rest, section);
        if a.None? {
          return None;
        }
        var visits := a.value.0;
        acc := if section == Pdus then Scan(|visits|, acc.authChain, acc.visits + visits)
            else Scan(acc.pdus, |visits|, acc.visits + visits);
        rest := a.value.1;
      } else {
        // An unknown field is skipped rather than refused.
        if rest == [] || !rest[0].Value? {
          return None;
        }
        rest := rest[1..];
      }
    }
    if rest == [] {
      return None;
    }
    r := Some(acc);
  }

  /** The PDUs visited under one array, as sent. */
  function RawsOf(visits: seq<Visit>, section: Section): seq<string> {
    if visits == [] then []
    else
      var before, last := RawsOf(visits[..|visits| - 1], section), visits[|visits| - 1];
      if last.section == section then before + [last.raw] else before
  }

  ghost predicate Genuine(codec: Codec, visits: seq<Visit>) {
    forall v :: v in visits ==> codec.canonical(v.raw) == Some(v.canonical)
  }

  function ResultOf(codec: Codec, scan: Scan): StateResult {
    StateResult(scan.pdus, scan.authChain, SumOf(codec, RawsOf(scan.visits, Pdus)) % MODULUS,
        SumOf(codec, RawsOf(scan.visits, AuthChain)) % MODULUS)
  }

  /** Folds a response into the digests, as the far half of the comparison. */
  method DigestStateResponse(codec: Codec, toks: seq<Token>) returns (r: Option<StateResult>)
    ensures r == match ScanResponse(codec, toks)
                 case None => None
                 case Some(scan) => Some(ResultOf(codec, scan))
  {
    var scan := ScanStateResponse(codec, toks);
    if scan.None? {
      return None;
    }
    ScanIsGenuine(codec, toks);
    var pdus, chain := DigestVisits(codec, scan.value.visits);
    r := Some(StateResult(scan.value.pdus, scan.value.authChain, pdus.Digest(), chain.Digest()));
  }

  /** The visitor: each PDU is folded into the digest of the array it came in. */
  method DigestVisits(codec: Codec, visits: seq<Visit>) returns (pdus: Accumulator, chain: Accumulator)
    requires Genuine(codec, visits)
    ensures pdus.sum == SumOf(codec, RawsOf(visits, Pdus)) && chain.sum == SumOf(codec, RawsOf(visits, AuthChain))
  {
    pdus, chain := Accumulator(0, 0), Accumulator(0, 0);
    for i := 0 to |visits|
      invariant pdus.sum == SumOf(codec, RawsOf(visits[..i], Pdus))
      invariant chain.sum == SumOf(codec, RawsOf(visits[..i], AuthChain))
    {
      var v := visits[i];
      assert v in visits && codec.HashOf(v.raw) == codec.hash(v.canonical);
      RawsNext(visits, i, Pdus);
      RawsNext(visits, i, AuthChain);
      SumNext(codec, RawsOf(visits[..i], v.section), v.raw);
      match v.section {
        case Pdus => pdus := pdus.Add(codec.hash(v.canonical));
        case AuthChain => chain := chain.Add(codec.hash(v.canonical));
      }
    }
    assert visits[..|visits|] == visits;
  }

  lemma RawsNext(visits: seq<Visit>, i: nat, section: Section)
    requires i < |visits|
    ensures RawsOf(visits[..i + 1], section) == if visits[i].section == section
            then RawsOf(visits[..i], section) + [visits[i].raw] else RawsOf(visits[..i], section)
  {
    assert visits[..i + 1][..i] == visits[..i];
  }

  lemma SumNext(codec: Codec, raws: seq<string>, raw: string)
    ensures SumOf(codec, raws + [raw]) == SumOf(codec, raws) + codec.HashOf(raw)
  {
    assert (raws + [raw])[..|raws|] == raws;
  }

  lemma {:induction false} VisitsAreGenuine(codec: Codec, section: Section, raws: seq<string>)
    requires forall raw :: raw in raws ==> codec.canonical(raw).Some?
    ensures Genuine(codec, VisitsOf(codec, section, raws))
    ensures RawsOf(VisitsOf(codec, section, raws), section) == raws
    ensures forall other: Section :: other != section ==> RawsOf(VisitsOf(codec, section, raws), other) == []
  {
    if raws != [] {
      var n := |raws| - 1;
      VisitsAreGenuine(codec, section, raws[..n]);
      assert VisitsOf(codec, section, raws)[..n] == VisitsOf(codec, section, raws[..n]);
      assert raws == raws[..n] + [raws[n]];
    }
  }

  lemma {:induction false} FieldsAreGenuine(codec: Codec, toks: seq<Token>, first: bool, acc: Scan)
    requires Genuine(codec, acc.visits)
    ensures var r := ScanFields(codec, toks, first, acc); r.Some? ==> Genuine(codec, r.value.visits)
    decreases |toks|
  {
    if toks != [] && toks[0] != Close && (first || toks[0] == Comma) {
      var field := if first then toks else toks[1..];
      if field != [] && field[0].Key? {
        if field[0].name == "pdus" || field[0].name == "auth_chain" {
          var a := ScanArray(codec, field[1..]);
          if a.Some? {
            var section := if field[0].name == "pdus" then Pdus else AuthChain;
            VisitsAreGenuine(codec, section, a.value.raws);
            FieldsAreGenuine(codec, a.value.rest, false, Record(codec, acc, section, a.value.raws));
          }
        } else if |field| >= 2 && field[1].Value? {
          FieldsAreGenuine(codec, field[2..], false, acc);
        }
      }
    }
  }

  lemma ScanIsGenuine(codec: Codec, toks: seq<Token>)
    ensures var r := ScanResponse(codec, toks); r.Some? ==> Genuine(codec, r.value.visits)
  {
    if toks != [] && toks[0] == Open {
      FieldsAreGenuine(codec, toks[1..], true, Scan(0, 0, []));
    }
  }

  // ---------------------------------------------------------------- what agreement means

  /** The sum of the hashes of the canonical forms a stream holds in one array. */
  ghost function HashSum(codec: Codec, visits: seq<Visit>, section: Section): nat {
    if visits == [] then 0
    else
      var last := visits[|visits| - 1];
      HashSum(codec, visits[..|visits| - 1], section) +
          (if last.section == section then codec.hash(last.canonical) else 0)
  }

  lemma {:induction false} RawsSumHashes(codec: Codec, visits: seq<Visit>, section: Section)
    requires Genuine(codec, visits)
    ensures SumOf(codec, RawsOf(visits, section)) == HashSum(codec, visits, section)
  {
    if visits != [] {
      var before, last := visits[..|visits| - 1], visits[|visits| - 1];
      assert last in visits;
      assert forall v :: v in before ==> v in visits;
      RawsSumHashes(codec, before, section);
      if last.section == section {
        SumNext(codec, RawsOf(before, section), last.raw);
      }
    }
  }

  /** Equal modulo 2^256. */
  predicate Congruent(a: nat, b: nat) {
    var modulus := 115792089237316195423570985008687907853269984665640564039457584007913129639936;
    a % modulus == b % modulus
  }

  /**
   * Two scanned responses agree exactly if in each of the two arrays the sums of the hashes are congruent modulo
   * 2^256.
   */
  lemma AgreeIffCongruent(codec: Codec, x: seq<Token>, y: seq<Token>)
    requires ScanResponse(codec, x).Some? && ScanResponse(codec, y).Some?
    ensures var a, b := ScanResponse(codec, x).value, ScanResponse(codec, y).value;
            ResultOf(codec, a).Agrees(ResultOf(codec, b)) <==>
            && Congruent(HashSum(codec, a.visits, Pdus), HashSum(codec, b.visits, Pdus))
            && Congruent(HashSum(codec, a.visits, AuthChain), HashSum(codec, b.visits, AuthChain))
  {
    var a, b := ScanResponse(codec, x).value, ScanResponse(codec, y).value;
    ScanIsGenuine(codec, x);
    ScanIsGenuine(codec, y);
    RawsSumHashes(codec, a.visits, Pdus);
    RawsSumHashes(codec, b.visits, Pdus);
    RawsSumHashes(codec, a.visits, AuthChain);
    RawsSumHashes(codec, b.visits, AuthChain);
  }

  // ---------------------------------------------------------------- printer and scanner

  datatype Field = PduField(raws: seq<string>) | AuthField(raws: seq<string>) | ExtraField(name: string, raw: string)

  function RenderField(f: Field): seq<Token> {
    match f
    case PduField(raws) => [Key("pdus"), ArrayOpen] + ArrayBody(raws) + [ArrayClose]
    case AuthField(raws) => [Key("auth_chain"), ArrayOpen] + ArrayBody(raws) + [ArrayClose]
    case ExtraField(name, raw) => [Key(name), Value(raw)]
  }

  function RenderRest(fields: seq<Field>, first: bool): seq<Token> {
    if fields == [] then [Close]
    else (if first then [] else [Comma]) + RenderField(fields[0]) + RenderRest(fields[1..], false)
  }

  /** A response with these fields in this order. */
  function Render(fields: seq<Field>): seq<Token> {
    [Open] + RenderRest(fields, true)
  }

  ghost predicate WellFormed(codec: Codec, f: Field) {
    match f
    case ExtraField(name, _) => name != "pdus" && name != "auth_chain"
    case _ => forall raw :: raw in f.raws ==> codec.canonical(raw).Some?
  }

  ghost predicate AllWellFormed(codec: Codec, fields: seq<Field>) {
    forall i :: 0 <= i < |fields| ==> WellFormed(codec, fields[i])
  }

  ghost function RecordField(codec: Codec, acc: Scan, f: Field): Scan
    requires WellFormed(codec, f)
  {
    match f
    case PduField(raws) => Record(codec, acc, Pdus, raws)
    case AuthField(raws) => Record(codec, acc, AuthChain, raws)
    case ExtraField(_, _) => acc
  }

  ghost function Tally(codec: Codec, fields: seq<Field>, acc: Scan): Scan
    requires AllWellFormed(codec, fields)
  {
    if fields == [] then acc
    else Tally(codec, fields[1..], RecordField(codec, acc, fields[0]))
  }

  /** An array body read from the front. */
  function Items(raws: seq<string>, first: bool): seq<Token> {
    if raws == [] then []
    else (if first then [] else [Comma]) + [Value(raws[0])] + Items(raws[1..], false)
  }

  lemma {:induction false} ItemsAppend(raws: seq<string>, raw: string, first: bool)
    ensures Items(raws + [raw], first) == Items(raws, first) + (if raws == [] && first then [] else [Comma]) +
            [Value(raw)]
  {
    if raws == [] {
      assert raws + [raw] == [raw] && [raw][1..] == [];
    } else {
      assert (raws + [raw])[1..] == raws[1..] + [raw];
      ItemsAppend(raws[1..], raw, false);
    }
  }

  lemma {:induction false} BodyIsItems(raws: seq<string>)
    ensures ArrayBody(raws) == Items(raws, true)
  {
    if raws != [] {
      var n := |raws| - 1;
      BodyIsItems(raws[..n]);
      ItemsAppend(raws[..n], raws[n], true);
      assert raws == raws[..n] + [raws[n]];
    }
  }

  lemma ItemIsScanned(codec: Codec, raw: string, more: seq<Token>, first: bool)
    requires codec.canonical(raw).Some?
    ensures ScanItems(codec, (if first then [] else [Comma]) + [Value(raw)] + more, first) ==
            Prepend([raw], ScanItems(codec, more, false))
  {
    var toks := (if first then [] else [Comma]) + [Value(raw)] + more;
    var item := if first then toks else toks[1..];
    assert item[0] == Value(raw) && item[1..] == more;
  }

  lemma {:induction false} ItemsAreScanned(codec: Codec, raws: seq<string>, first: bool, tail: seq<Token>)
    requires forall raw :: raw in raws ==> codec.canonical(raw).Some?
    ensures ScanItems(codec, Items(raws, first) + ([ArrayClose] + tail), first) == Some(ArrayScan(raws, tail))
  {
    if raws == [] {
      assert Items(raws, first) + ([ArrayClose] + tail) == [ArrayClose] + tail;
    } else {
      assert raws == [raws[0]] + raws[1..];
      var more := Items(raws[1..], false) + ([ArrayClose] + tail);
      ItemsAreScanned(codec, raws[1..], false, tail);
      ItemIsScanned(codec, raws[0], more, first);
      Assoc((if first then [] else [Comma]) + [Value(raws[0])], Items(raws[1..], false), [ArrayClose] + tail);
    }
  }

  lemma ArrayIsScanned(codec: Codec, raws: seq<string>, tail: seq<Token>)
    requires forall raw :: raw in raws ==> codec.canonical(raw).Some?
    ensures ScanArray(codec, [ArrayOpen] + (ArrayBody(raws) + ([ArrayClose] + tail))) == Some(ArrayScan(raws, tail))
  {
    BodyIsItems(raws);
    ItemsAreScanned(codec, raws, true, tail);
    var body := ArrayBody(raws) + ([ArrayClose] + tail);
    assert ([ArrayOpen] + body)[1..] == body;
  }

  lemma ArrayFieldIsScanned(codec: Codec, raws: seq<string>, tail: seq<Token>, name: string, acc: Scan)
    requires name == "pdus" || name == "auth_chain"
    requires forall raw :: raw in raws ==> codec.canonical(raw).Some?
    ensures var field := [Key(name), ArrayOpen] + ArrayBody(raws) + [ArrayClose] + tail;
            ScanFields(codec, field, true, acc) ==
                ScanFields(codec, tail, false, Record(codec, acc, if name == "pdus" then Pdus else AuthChain, raws))
  {
    ArrayIsScanned(codec, raws, tail);
    var field := [Key(name), ArrayOpen] + ArrayBody(raws) + [ArrayClose] + tail;
    var rest := [ArrayOpen] + (ArrayBody(raws) + ([ArrayClose] + tail));
    assert field == [Key(name)] + rest;
    assert field[1..] == rest;
  }

  lemma FieldIsScanned(codec: Codec, f: Field, tail: seq<Token>, acc: Scan)
    requires WellFormed(codec, f)
    ensures ScanFields(codec, RenderField(f) + tail, true, acc) ==
            ScanFields(codec, tail, false, RecordField(codec, acc, f))
  {
    match f
    case PduField(raws) => ArrayFieldIsScanned(codec, raws, tail, "pdus", acc);
    case AuthField(raws) => ArrayFieldIsScanned(codec, raws, tail, "auth_chain", acc);
    case ExtraField(name, raw) => assert (RenderField(f) + tail)[2..] == tail;
  }

  lemma CommaIsScanned(codec: Codec, field: seq<Token>, acc: Scan)
    requires field != [] && field[0].Key?
    ensures ScanFields(codec, [Comma] + field, false, acc) == ScanFields(codec, field, true, acc)
  {
    assert ([Comma] + field)[1..] == field;
  }

  lemma RenderStep(fields: seq<Field>, first: bool)
    requires fields != []
    ensures var field := RenderField(fields[0]) + RenderRest(fields[1..], false);
            RenderRest(fields, first) == if first then field else [Comma] + field
  {
    assert [] + RenderField(fields[0]) == RenderField(fields[0]);
  }

  lemma {:induction false} FieldsAreScanned(codec: Codec, fields: seq<Field>, first: bool, acc: Scan)
    requires AllWellFormed(codec, fields)
    ensures ScanFields(codec, RenderRest(fields, first), first, acc) == Some(Tally(codec, fields, acc))
    decreases |fields|
  {
    if fields != [] {
      var f, tail := fields[0], RenderRest(fields[1..], false);
      var next := RecordField(codec, acc, f);
      RenderStep(fields, first);
      FieldIsScanned(codec, f, tail, acc);
      CommaIsScanned(codec, RenderField(f) + tail, acc);
      assert ScanFields(codec, RenderRest(fields, first), first, acc) == ScanFields(codec, tail, false, next);
      FieldsAreScanned(codec, fields[1..], false, next);
    }
  }

  function RawsIn(f: Field, section: Section): seq<string> {
    match f
    case PduField(raws) => if section == Pdus then raws else []
    case AuthField(raws) => if section == AuthChain then raws else []
    case ExtraField(_, _) => []
  }

  /** All PDUs the fields put into one array. */
  ghost function AllOf(fields: seq<Field>, section: Section): seq<string> {
    if fields == [] then [] else RawsIn(fields[0], section) + AllOf(fields[1..], section)
  }

  lemma {:induction false} RawsJoin(a: seq<Visit>, b: seq<Visit>, section: Section)
    ensures RawsOf(a + b, section) == RawsOf(a, section) + RawsOf(b, section)
  {
    if b == [] {
      assert a + b == a;
    } else {
      assert (a + b)[..|a + b| - 1] == a + b[..|b| - 1];
      RawsJoin(a, b[..|b| - 1], section);
    }
  }

  lemma FieldVisits(codec: Codec, f: Field, acc: Scan, section: Section)
    requires WellFormed(codec, f)
    ensures RawsOf(RecordField(codec, acc, f).visits, section) == RawsOf(acc.visits, section) + RawsIn(f, section)
  {
    match f
    case PduField(raws) =>
      VisitsAreGenuine(codec, Pdus, raws);
      RawsJoin(acc.visits, VisitsOf(codec, Pdus, raws), section);
    case AuthField(raws) =>
      VisitsAreGenuine(codec, AuthChain, raws);
      RawsJoin(acc.visits, VisitsOf(codec, AuthChain, raws), section);
    case ExtraField(_, _) =>
  }

  lemma {:induction false} TallyVisits(codec: Codec, fields: seq<Field>, acc: Scan, section: Section)
    requires AllWellFormed(codec, fields)
    ensures RawsOf(Tally(codec, fields, acc).visits, section) == RawsOf(acc.visits, section) + AllOf(fields, section)
    decreases |fields|
  {
    if fields != [] {
      var next := RecordField(codec, acc, fields[0]);
      FieldVisits(codec, fields[0], acc, section);
      TallyVisits(codec, fields[1..], next, section);
      Assoc(RawsOf(acc.visits, section), RawsIn(fields[0], section), AllOf(fields[1..], section));
      assert Tally(codec, fields, acc) == Tally(codec, fields[1..], next);
    }
  }

  /** The canonical forms of bodies: what the digest is made of. */
  function Canonicals(codec: Codec, raws: seq<string>): seq<string>
    requires forall raw :: raw in raws ==> codec.canonical(raw).Some?
  {
    if raws == [] then []
    else
      var n := |raws| - 1;
      Canonicals(codec, raws[..n]) + [codec.canonical(raws[n]).value]
  }

  /** Bodies are summed as their canonical forms would be under a codec that leaves these alone. */
  lemma {:induction false} SumOfCanonicals(codec: Codec, raws: seq<string>)
    requires forall raw :: raw in raws ==> codec.canonical(raw).Some?
    ensures SumOf(codec, raws) == SumOf(codec.(canonical := s => Some(s)), Canonicals(codec, raws))
  {
    if raws != [] {
      var n := |raws| - 1;
      SumOfCanonicals(codec, raws[..n]);
      var forms := Canonicals(codec, raws);
      assert forms[..|forms| - 1] == Canonicals(codec, raws[..n]);
      assert raws[n] in raws;
    }
  }

  lemma {:induction false} AllOfIsCanonical(codec: Codec, fields: seq<Field>, section: Section)
    requires AllWellFormed(codec, fields)
    ensures forall raw :: raw in AllOf(fields, section) ==> codec.canonical(raw).Some?
  {
    if fields != [] {
      AllOfIsCanonical(codec, fields[1..], section);
    }
  }

  /** All PDUs the fields put into one array, each in its canonical form. */
  ghost function FormsOf(codec: Codec, fields: seq<Field>, section: Section): seq<string>
    requires AllWellFormed(codec, fields)
  {
    AllOfIsCanonical(codec, fields, section);
    Canonicals(codec, AllOf(fields, section))
  }

  lemma TallySum(codec: Codec, fields: seq<Field>, section: Section)
    requires AllWellFormed(codec, fields)
    ensures SumOf(codec, RawsOf(Tally(codec, fields, Scan(0, 0, [])).visits, section)) ==
            SumOf(codec.(canonical := s => Some(s)), FormsOf(codec, fields, section))
  {
    TallyVisits(codec, fields, Scan(0, 0, []), section);
    assert [] + AllOf(fields, section) == AllOf(fields, section);
    AllOfIsCanonical(codec, fields, section);
    SumOfCanonicals(codec, AllOf(fields, section));
  }

  /**
   * What a scanned response is digested to depends on nothing but the multisets of the canonical forms of
   * the PDUs its two arrays hold: not on how these are spelt, not on their order, not on the order of the
   * fields, not on fields it does not know.
   */
  lemma DigestForgetsLayout(codec: Codec, a: seq<Field>, b: seq<Field>)
    requires AllWellFormed(codec, a) && AllWellFormed(codec, b)
    requires forall section: Section :: multiset(FormsOf(codec, a, section)) == multiset(FormsOf(codec, b, section))
    ensures var x, y := ScanResponse(codec, Render(a)), ScanResponse(codec, Render(b));
            x.Some? && y.Some? && ResultOf(codec, x.value).Agrees(ResultOf(codec, y.value))
  {
    var none := Scan(0, 0, []);
    RenderIsScanned(codec, a);
    RenderIsScanned(codec, b);
    forall section: Section
      ensures SumOf(codec, RawsOf(Tally(codec, a, none).visits, section)) ==
              SumOf(codec, RawsOf(Tally(codec, b, none).visits, section))
    {
      TallySum(codec, a, section);
      TallySum(codec, b, section);
      SumForgetsOrder(codec.(canonical := s => Some(s)), FormsOf(codec, a, section), FormsOf(codec, b, section));
    }
  }

  lemma RenderIsScanned(codec: Codec, fields: seq<Field>)
    requires AllWellFormed(codec, fields)
    ensures ScanResponse(codec, Render(fields)) == Some(Tally(codec, fields, Scan(0, 0, [])))
  {
    FieldsAreScanned(codec, fields, true, Scan(0, 0, []));
    assert Render(fields)[1..] == RenderRest(fields, true);
  }

  // ---------------------------------------------------------------- what the counts describe

  function CountOf(scan: Scan, section: Section): int {
    if section == Pdus then scan.pdus else scan.authChain
  }

  predicate Fills(f: Field, section: Section) {
    (f.PduField? && section == Pdus) || (f.AuthField? && section == AuthChain)
  }

  ghost predicate Unfilled(fields: seq<Field>, section: Section) {
    forall i :: 0 <= i < |fields| ==> !Fills(fields[i], section)
  }

  /** Every array under the key but the last is empty. */
  ghost predicate EarlierEmpty(fields: seq<Field>, section: Section) {
    forall i, j :: 0 <= i < j < |fields| && Fills(fields[i], section) && Fills(fields[j], section) ==>
        RawsIn(fields[i], section) == []
  }

  ghost function Counted(fields: seq<Field>, section: Section, count: nat): nat {
    if fields == [] then count
    else Counted(fields[1..], section, if Fills(fields[0], section) then |RawsIn(fields[0], section)| else count)
  }

  lemma {:induction false} TallyCounts(codec: Codec, fields: seq<Field>, acc: Scan, section: Section)
    requires AllWellFormed(codec, fields) && 0 <= CountOf(acc, section)
    ensures CountOf(Tally(codec, fields, acc), section) == Counted(fields, section, CountOf(acc, section))
    decreases |fields|
  {
    if fields != [] {
      TallyCounts(codec, fields[1..], RecordField(codec, acc, fields[0]), section);
    }
  }

  lemma EmptyNext(fields: seq<Field>, section: Section)
    requires fields != []
    ensures Unfilled(fields, section) <==> !Fills(fields[0], section) && Unfilled(fields[1..], section)
    ensures EarlierEmpty(fields, section) <==>
            EarlierEmpty(fields[1..], section) &&
                (Fills(fields[0], section) ==> RawsIn(fields[0], section) == [] || Unfilled(fields[1..], section))
  {
    var rest := fields[1..];
    assert forall j :: 0 <= j < |rest| ==> rest[j] == fields[j + 1];
    assert forall j :: 0 < j < |fields| ==> fields[j] == rest[j - 1];
  }

  /**
   * A count never exceeds what was there, and falls short of it exactly if a later array replaced one that was not
   * empty.
   */
  lemma {:induction false} CountedAtMost(fields: seq<Field>, section: Section, count: nat)
    ensures Counted(fields, section, count) <= count + |AllOf(fields, section)|
    ensures Counted(fields, section, count) == count + |AllOf(fields, section)| <==>
            EarlierEmpty(fields, section) && (count == 0 || Unfilled(fields, section))
  {
    if fields != [] {
      EmptyNext(fields, section);
      CountedAtMost(fields[1..], section, if Fills(fields[0], section) then |RawsIn(fields[0], section)| else count);
    }
  }

  /**
   * The count of an array is the number of PDUs its digest covers exactly if every array under that key
   * before the last is empty; otherwise it is smaller.
   */
  lemma CountDescribesDigest(codec: Codec, fields: seq<Field>, section: Section)
    requires AllWellFormed(codec, fields)
    ensures var scan := ScanResponse(codec, Render(fields));
            scan.Some? &&
            var digested := |RawsOf(scan.value.visits, section)|;
            && CountOf(scan.value, section) <= digested
            && (CountOf(scan.value, section) == digested <==> EarlierEmpty(fields, section))
  {
    var none := Scan(0, 0, []);
    RenderIsScanned(codec, fields);
    TallyVisits(codec, fields, none, section);
    TallyCounts(codec, fields, none, section);
    CountedAtMost(fields, section, 0);
    assert [] + AllOf(fields, section) == AllOf(fields, section);
  }

  /** A response that says "pdus" twice, the second time with nothing: one PDU is digested and none is counted. */
  lemma RepeatedFieldUndercounts(codec: Codec, raw: string)
    requires codec.canonical(raw).Some?
    ensures var scan := ScanResponse(codec, Render([PduField([raw]), PduField([])]));
            scan.Some? && scan.value.pdus == 0 && RawsOf(scan.value.visits, Pdus) == [raw]
  {
    var fields := [PduField([raw]), PduField([])];
    var none := Scan(0, 0, []);
    RenderIsScanned(codec, fields);
    TallyVisits(codec, fields, none, Pdus);
    TallyTwo(codec, fields[0], fields[1], none);
    assert fields[1..] == [PduField([])] && fields[1..][1..] == [];
    assert AllOf(fields, Pdus) == [raw] + ([] + []);
  }

  lemma {:induction false} BodiesAreCanonical(codec: Codec, db: map<string, Event>, found: seq<string>)
    requires forall id :: id in found ==> id in db && Renders(codec, db[id])
    ensures forall raw :: raw in Bodies(codec, db, found) ==> codec.canonical(raw).Some?
  {
    if found != [] {
      assert found[|found| - 1] in found;
      BodiesAreCanonical(codec, db, found[..|found| - 1]);
    }
  }

  /**
   * Scanning the body State writes gives back the counts and the digests State reports, so the two
   * halves of a comparison agree on an answer both of them hold.
   */
  lemma RoundTrip(codec: Codec, db: map<string, Event>, stateIds: seq<string>, authIds: seq<string>)
    requires forall id :: (id in stateIds || id in authIds) && Found(db, id) ==> Renders(codec, db[id])
    ensures var pdus, chain := Served(codec, db, stateIds), Served(codec, db, authIds);
            var scan := ScanResponse(codec, StateBody(pdus, chain));
            scan.Some? && ResultOf(codec, scan.value) ==
                StateResult(|pdus|, |chain|, SumOf(codec, pdus) % MODULUS, SumOf(codec, chain) % MODULUS)
  {
    FoundRender(codec, db, stateIds);
    FoundRender(codec, db, authIds);
    BatchedFoundIn(db, stateIds, 0, DEFAULT_EVENT_BATCH);
    BatchedFoundIn(db, authIds, 0, DEFAULT_EVENT_BATCH);
    BodiesAreCanonical(codec, db, FoundIn(db, stateIds));
    BodiesAreCanonical(codec, db, FoundIn(db, authIds));
    BodyRoundTrip(codec, Served(codec, db, stateIds), Served(codec, db, authIds));
  }

  lemma BodyRoundTrip(codec: Codec, pdus: seq<string>, chain: seq<string>)
    requires forall raw :: raw in pdus || raw in chain ==> codec.canonical(raw).Some?
    ensures var scan := ScanResponse(codec, StateBody(pdus, chain));
            scan.Some? && ResultOf(codec, scan.value) ==
                StateResult(|pdus|, |chain|, SumOf(codec, pdus) % MODULUS, SumOf(codec, chain) % MODULUS)
  {
    var fields := [PduField(pdus), AuthField(chain)];
    StateBodyIsRendered(pdus, chain);
    RenderIsScanned(codec, fields);
    TallyOfState(codec, pdus, chain);
  }

  lemma RenderTwo(p: Field, a: Field)
    ensures Render([p, a]) == [Open] + (RenderField(p) + ([Comma] + (RenderField(a) + [Close])))
  {
    assert [p, a][1..] == [a] && [a][1..] == [];
    RenderStep([a], false);
    RenderStep([p, a], true);
  }

  /** The two groupings of the tokens of a body are one list. */
  lemma Regroup(p: seq<Token>, x: seq<Token>, q: seq<Token>, y: seq<Token>)
    ensures [Open] + ((p + x + [ArrayClose]) + ([Comma] + ((q + y + [ArrayClose]) + [Close]))) ==
            ([Open] + p) + x + ([ArrayClose, Comma] + q) + y + [ArrayClose, Close]
  {
    var tail := y + [ArrayClose, Close];
    assert (q + y + [ArrayClose]) + [Close] == q + tail;
    Assoc([Comma], q, tail);
    Assoc(p + x, [ArrayClose], ([Comma] + q) + tail);
    Assoc([ArrayClose], [Comma] + q, tail);
    assert [ArrayClose] + ([Comma] + q) == [ArrayClose, Comma] + q;
    var rest := ([ArrayClose, Comma] + q) + tail;
    Assoc(p, x, rest);
    Assoc([Open], p, x + rest);
    Assoc([Open] + p, x, rest);
    Assoc(([Open] + p) + x, [ArrayClose, Comma] + q, tail);
    Assoc(([Open] + p) + x + ([ArrayClose, Comma] + q), y, [ArrayClose, Close]);
  }

  lemma StateBodyIsRendered(pdus: seq<string>, chain: seq<string>)
    ensures Render([PduField(pdus), AuthField(chain)]) == StateBody(pdus, chain)
  {
    RenderTwo(PduField(pdus), AuthField(chain));
    Regroup([Key("pdus"), ArrayOpen], ArrayBody(pdus), [Key("auth_chain"), ArrayOpen], ArrayBody(chain));
    assert [Open] + [Key("pdus"), ArrayOpen] == [Open, Key("pdus"), ArrayOpen];
    assert [ArrayClose, Comma] + [Key("auth_chain"), ArrayOpen] == [ArrayClose, Comma, Key("auth_chain"), ArrayOpen];
  }

  lemma TallyTwo(codec: Codec, p: Field, a: Field, acc: Scan)
    requires WellFormed(codec, p) && WellFormed(codec, a)
    ensures Tally(codec, [p, a], acc) == RecordField(codec, RecordField(codec, acc, p), a)
  {
    assert [p, a][1..] == [a] && [a][1..] == [];
    assert Tally(codec, [a], RecordField(codec, acc, p)) == RecordField(codec, RecordField(codec, acc, p), a);
  }

  lemma TallyOfState(codec: Codec, pdus: seq<string>, chain: seq<string>)
    requires forall raw :: raw in pdus || raw in chain ==> codec.canonical(raw).Some?
    ensures var fields := [PduField(pdus), AuthField(chain)];
            AllWellFormed(codec, fields) &&
            var scan := Tally(codec, fields, Scan(0, 0, []));
            && scan.pdus == |pdus| && scan.authChain == |chain|
            && RawsOf(scan.visits, Pdus) == pdus && RawsOf(scan.visits, AuthChain) == chain
  {
    var p, a, none := PduField(pdus), AuthField(chain), Scan(0, 0, []);
    var first := RecordField(codec, none, p);
    TallyTwo(codec, p, a, none);
    forall section: Section
      ensures RawsOf(RecordField(codec, first, a).visits, section) == RawsIn(p, section) + RawsIn(a, section)
    {
      FieldVisits(codec, p, none, section);
      FieldVisits(codec, a, first, section);
    }
  }
}
