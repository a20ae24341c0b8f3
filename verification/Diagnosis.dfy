/**
 * The second look at a /state mismatch. A first pass cancels the hashes of both sides against each other
 * and keeps only what is left over; a second pass re-reads both sides and names events of that residue.
 */
module Diagnosis {
  import opened Basics
  import opened StateStream

  datatype ArrayDiagnosis<I> = ArrayDiagnosis(nativeOnly: nat, synapseOnly: nat, nativeSamples: seq<I>,
      synapseSamples: seq<I>)

  datatype StateDiagnosis<I> = StateDiagnosis(pdus: ArrayDiagnosis<I>, authChain: ArrayDiagnosis<I>) {
    predicate Empty() {
      pdus.nativeOnly == 0 && pdus.synapseOnly == 0 && authChain.nativeOnly == 0 && authChain.synapseOnly == 0
    }
  }

  const DEFAULT_DIAGNOSIS_SAMPLES := 10

  /** The hashes a stream holds in one array, in stream order. */
  function HashSeq(codec: Codec, visits: seq<Visit>, section: Section): seq<nat> {
    if visits == [] then []
    else
      var before, last := HashSeq(codec, visits[..|visits| - 1], section), visits[|visits| - 1];
      if last.section == section then before + [codec.hash(last.canonical)] else before
  }

  ghost function Hashes(codec: Codec, visits: seq<Visit>, section: Section): multiset<nat> {
    multiset(HashSeq(codec, visits, section))
  }

  lemma HashesNext(codec: Codec, visits: seq<Visit>, i: nat, section: Section)
    requires i < |visits|
    ensures Hashes(codec, visits[..i + 1], section) ==
            Hashes(codec, visits[..i], section) +
                (if visits[i].section == section then multiset{codec.hash(visits[i].canonical)} else multiset{})
  {
    assert visits[..i + 1][..i] == visits[..i];
  }

  // ---------------------------------------------------------------- pass 1

  datatype Residue = Residue(pdus: map<nat, int>, authChain: map<nat, int>) {
    function Of(section: Section): map<nat, int> {
      if section == AuthChain then authChain else pdus
    }

    function With(section: Section, m: map<nat, int>): Residue {
      if section == AuthChain then this.(authChain := m) else this.(pdus := m)
    }
  }

  /** The map holds the signed difference of two multisets, and no zero entries. */
  ghost predicate Nets(m: map<nat, int>, native: multiset<nat>, synapse: multiset<nat>) {
    && (forall h :: AtOrZero(m, h) + synapse[h] == native[h])
    && (forall h :: h in m ==> m[h] != 0)
  }

  /** What one array's residue is measured against, once i events of the side at hand are read. */
  ghost predicate Netted(codec: Codec, m: map<nat, int>, sign: int, section: Section, visits: seq<Visit>,
      other: seq<Visit>)
  {
    if sign == 1 then Nets(m, Hashes(codec, visits, section), Hashes(codec, other, section))
    else Nets(m, Hashes(codec, other, section), Hashes(codec, visits, section))
  }

  /** One event: counted up or down, and forgotten where it cancels. */
  method TallyOne(m: map<nat, int>, h: nat, sign: int) returns (r: map<nat, int>)
    ensures sign == 1 ==> forall n, s :: Nets(m, n, s) ==> Nets(r, n + multiset{h}, s)
    ensures sign == -1 ==> forall n, s :: Nets(m, n, s) ==> Nets(r, n, s + multiset{h})
  {
    r := m[h := AtOrZero(m, h) + sign];
    if r[h] == 0 {
      r := r - {h};
    }
  }

  /** One side's visitor in the first pass. */
  /** Tallies one event into its array and leaves the other alone. */
  method TallyNext(codec: Codec, visits: seq<Visit>, i: nat, sign: int, residue: Residue, ghost other: seq<Visit>)
      returns (r: Residue)
    requires (sign == 1 || sign == -1) && i < |visits|
    requires forall s: Section :: Netted(codec, residue.Of(s), sign, s, visits[..i], other)
    ensures forall s: Section :: Netted(codec, r.Of(s), sign, s, visits[..i + 1], other)
  {
    var v := visits[i];
    var m := TallyOne(residue.Of(v.section), codec.hash(v.canonical), sign);
    r := residue.With(v.section, m);
    forall s: Section ensures Netted(codec, r.Of(s), sign, s, visits[..i + 1], other) {
      assert Netted(codec, residue.Of(s), sign, s, visits[..i], other);
      HashesNext(codec, visits, i, s);
      if s != v.section {
        assert r.Of(s) == residue.Of(s);
        assert Hashes(codec, visits[..i], s) + multiset{} == Hashes(codec, visits[..i], s);
      }
    }
  }

  /** Pass 1 over one side: counts its hashes up or down, deleting what cancels out. */
  method TallySide(codec: Codec, visits: seq<Visit>, sign: int, residue: Residue, ghost other: seq<Visit>)
      returns (r: Residue)
    requires sign == 1 || sign == -1
    requires forall s: Section :: Netted(codec, residue.Of(s), sign, s, [], other)
    ensures forall s: Section :: Netted(codec, r.Of(s), sign, s, visits, other)
  {
    r := residue;
    for i := 0 to |visits|
      invariant forall s: Section :: Netted(codec, r.Of(s), sign, s, visits[..i], other)
    {
      r := TallyNext(codec, visits, i, sign, r, other);
    }
    assert visits[..|visits|] == visits;
  }

  method CountResidue(m: map<nat, int>, ghost native: multiset<nat>, ghost synapse: multiset<nat>)
      returns (nativeOnly: nat, synapseOnly: nat)
    requires Nets(m, native, synapse)
    ensures nativeOnly == |native - synapse| && synapseOnly == |synapse - native|
  {
    nativeOnly, synapseOnly := 0, 0;
    ghost var more, less: multiset<nat> := multiset{}, multiset{};
    var todo: set<nat> := m.Keys;
    while todo != {}
      invariant todo <= m.Keys
      invariant nativeOnly == |more| && synapseOnly == |less|
      invariant forall h :: more[h] == if h in m && h !in todo && m[h] > 0 then m[h] else 0
      invariant forall h :: less[h] == if h in m && h !in todo && m[h] < 0 then -m[h] else 0
    {
      var h :| h in todo;
      todo := todo - {h};
      var n := m[h];
      if n > 0 {
        nativeOnly, more := nativeOnly + n, more[h := n];
      } else {
        synapseOnly, less := synapseOnly - n, less[h := -n];
      }
    }
    assert more == native - synapse;
    assert less == synapse - native;
  }

  // ---------------------------------------------------------------- pass 2

  function Min(a: int, b: int): int {
    if a < b then a else b
  }

  /** Positions of this array's events in a stream, in stream order and each once. */
  ghost predicate Places(visits: seq<Visit>, section: Section, at: seq<nat>) {
    && (forall j, k :: 0 <= j < k < |at| ==> at[j] < at[k])
    && (forall k :: 0 <= k < |at| ==> at[k] < |visits| && visits[at[k]].section == section)
  }

  ghost function HashesAt(codec: Codec, visits: seq<Visit>, section: Section, at: seq<nat>): multiset<nat>
    requires Places(visits, section, at)
  {
    if at == [] then multiset{}
    else HashesAt(codec, visits, section, at[..|at| - 1]) + multiset{codec.hash(visits[at[|at| - 1]].canonical)}
  }

  lemma {:induction false} HashPerPlace(codec: Codec, visits: seq<Visit>, section: Section, at: seq<nat>)
    requires Places(visits, section, at)
    ensures |HashesAt(codec, visits, section, at)| == |at|
  {
    if at != [] {
      HashPerPlace(codec, visits, section, at[..|at| - 1]);
    }
  }

  /** The samples are the identities of the events at these places. */
  ghost predicate Names<I>(identify: string -> I, samples: seq<I>, visits: seq<Visit>, section: Section, at: seq<nat>)
    requires Places(visits, section, at)
  {
    |samples| == |at| && forall k :: 0 <= k < |at| ==> samples[k] == identify(visits[at[k]].raw)
  }

  /** The samples name different events of the stream, whose hashes with their repetitions all lie in the residue. */
  ghost predicate Drawn<I>(codec: Codec, identify: string -> I, samples: seq<I>, visits: seq<Visit>, section: Section,
      residue: multiset<nat>)
  {
    exists at ::
        Places(visits, section, at) && Names(identify, samples, visits, section, at) &&
        HashesAt(codec, visits, section, at) <= residue
  }

  /** Naming under way: places below i have been named, and their hashes lie in what has been found of the residue. */
  ghost predicate Naming<I>(codec: Codec, identify: string -> I, samples: seq<I>, visits: seq<Visit>, section: Section,
      at: seq<nat>, i: nat, found: multiset<nat>)
  {
    && Places(visits, section, at) && Names(identify, samples, visits, section, at)
    && (forall k :: 0 <= k < |at| ==> at[k] < i)
    && HashesAt(codec, visits, section, at) <= found
  }

  lemma NameMore<I>(codec: Codec, identify: string -> I, samples: seq<I>, visits: seq<Visit>, section: Section,
      at: seq<nat>, i: nat, found: multiset<nat>)
    requires Naming(codec, identify, samples, visits, section, at, i, found)
    requires i < |visits| && visits[i].section == section
    ensures Naming(codec, identify, samples + [identify(visits[i].raw)], visits, section, at + [i], i + 1,
            found + multiset{codec.hash(visits[i].canonical)})
  {
    assert (at + [i])[..|at + [i]| - 1] == at;
  }

  lemma NameSkip<I>(codec: Codec, identify: string -> I, samples: seq<I>, visits: seq<Visit>, section: Section,
      at: seq<nat>, i: nat, wanted: multiset<nat>, met: multiset<nat>, more: multiset<nat>)
    requires Naming(codec, identify, samples, visits, section, at, i, wanted * met) && met <= more
    ensures Naming(codec, identify, samples, visits, section, at, i + 1, wanted * more)
  {
    assert wanted * met <= wanted * more;
  }

  lemma NamingEnds<I>(codec: Codec, identify: string -> I, samples: seq<I>, visits: seq<Visit>, section: Section,
      at: seq<nat>, i: nat, wanted: multiset<nat>, met: multiset<nat>)
    requires Naming(codec, identify, samples, visits, section, at, i, wanted * met)
    ensures Drawn(codec, identify, samples, visits, section, wanted)
  {
    assert wanted * met <= wanted;
  }

  lemma MeetOneMore(wanted: multiset<nat>, met: multiset<nat>, h: nat)
    ensures wanted * (met + multiset{h}) == if (wanted * met)[h] < wanted[h] then wanted * met + multiset{h}
            else wanted * met
  {}

  /** The part of the residue that is one side's, to be counted down as it is met again. */
  method WorkingCopy(m: map<nat, int>, sign: int, ghost wanted: multiset<nat>) returns (remaining: map<nat, int>)
    requires forall h :: wanted[h] == if AtOrZero(m, h) * sign > 0 then AtOrZero(m, h) * sign else 0
    ensures forall h :: AtOrZero(remaining, h) == wanted[h]
  {
    remaining := map h | h in m && m[h] * sign > 0 :: m[h] * sign;
  }

  /** The state of a second-pass visitor after meeting some of its side's hashes again. */
  ghost predicate Collecting(remaining: map<nat, int>, count: nat, cap: int, wanted: multiset<nat>, met: multiset<nat>)
  {
    && (forall h :: AtOrZero(remaining, h) + (wanted * met)[h] == wanted[h])
    && count == Min(cap, |wanted * met|)
  }

  /** Meets one hash: counts it down if it is still wanted, and says whether it is to be named. */
  method CollectOne(remaining: map<nat, int>, h: nat, count: nat, cap: int, ghost wanted: multiset<nat>,
      ghost met: multiset<nat>)
    returns (remaining': map<nat, int>, named: bool)
    requires Collecting(remaining, count, cap, wanted, met)
    ensures Collecting(remaining', if named then count + 1 else count, cap, wanted, met + multiset{h})
    ensures named ==> wanted * (met + multiset{h}) == wanted * met + multiset{h}
  {
    MeetOneMore(wanted, met, h);
    remaining', named := remaining, false;
    if AtOrZero(remaining, h) <= 0 {
      return;
    }
    remaining' := remaining[h := AtOrZero(remaining, h) - 1];
    named := count < cap;
  }

  /** Meets the event at one place of the stream. */
  method CollectNext<I>(codec: Codec, identify: string -> I, visits: seq<Visit>, section: Section, i: nat,
      remaining: map<nat, int>, samples: seq<I>, cap: int,
                        ghost wanted: multiset<nat>, ghost met: multiset<nat>, ghost at: seq<nat>)
    returns (remaining': map<nat, int>, samples': seq<I>, ghost at': seq<nat>)
    requires i < |visits| && visits[i].section == section
    requires Collecting(remaining, |samples|, cap, wanted, met) &&
             Naming(codec, identify, samples, visits, section, at, i, wanted * met)
    ensures var met' := met + multiset{codec.hash(visits[i].canonical)};
            Collecting(remaining', |samples'|, cap, wanted, met') &&
                Naming(codec, identify, samples', visits, section, at', i + 1, wanted * met')
  {
    var v := visits[i];
    var h := codec.hash(v.canonical);
    var named;
    remaining', named := CollectOne(remaining, h, |samples|, cap, wanted, met);
    if named {
      NameMore(codec, identify, samples, visits, section, at, i, wanted * met);
      samples', at' := samples + [identify(v.raw)], at + [i];
    } else {
      NameSkip(codec, identify, samples, visits, section, at, i, wanted, met, met + multiset{h});
      samples', at' := samples, at;
    }
  }

  /**
   * One side's visitor in the second pass, for one array: names as many of the residue as it meets again, up to a cap.
   */
  method CollectSide<I>(codec: Codec, identify: string -> I, visits: seq<Visit>, section: Section, sign: int,
      m: map<nat, int>, cap: int, ghost wanted: multiset<nat>)
    returns (samples: seq<I>)
    requires 0 < cap && (sign == 1 || sign == -1)
    requires forall h :: wanted[h] == if AtOrZero(m, h) * sign > 0 then AtOrZero(m, h) * sign else 0
    ensures |samples| == Min(cap, |wanted * Hashes(codec, visits, section)|)
    ensures Drawn(codec, identify, samples, visits, section, wanted)
  {
    var remaining := WorkingCopy(m, sign, wanted);
    samples := [];
    ghost var at, met := [], multiset{};
    assert wanted * met == multiset{};
    for i := 0 to |visits|
      invariant met == Hashes(codec, visits[..i], section)
      invariant Collecting(remaining, |samples|, cap, wanted, met)
      invariant Naming(codec, identify, samples, visits, section, at, i, wanted * met)
    {
      HashesNext(codec, visits, i, section);
      if visits[i].section == section {
        remaining, samples, at :=
            CollectNext(codec, identify, visits, section, i, remaining, samples, cap, wanted, met, at);
        met := met + multiset{codec.hash(visits[i].canonical)};
      } else {
        NameSkip(codec, identify, samples, visits, section, at, i, wanted, met, met);
        assert met + multiset{} == met;
      }
    }
    assert visits[..|visits|] == visits;
    NamingEnds(codec, identify, samples, visits, section, at, |visits|, wanted, met);
  }

  // ---------------------------------------------------------------- both passes

  /** What a finished diagnosis says about one array, given what each replay held. */
  ghost predicate Diagnoses<I>(codec: Codec, identify: string -> I, cap: int, section: Section, d: ArrayDiagnosis<I>,
                               native: seq<Visit>, synapse: seq<Visit>, nativeAgain: seq<Visit>,
                                   synapseAgain: seq<Visit>) {
    var n, s := Hashes(codec, native, section), Hashes(codec, synapse, section);
    && d.nativeOnly == |n - s| && d.synapseOnly == |s - n|
    && |d.nativeSamples| == Min(cap, |(n - s) * Hashes(codec, nativeAgain, section)|)
    && |d.synapseSamples| == Min(cap, |(s - n) * Hashes(codec, synapseAgain, section)|)
    && Drawn(codec, identify, d.nativeSamples, nativeAgain, section, n - s)
    && Drawn(codec, identify, d.synapseSamples, synapseAgain, section, s - n)
  }

  method DiagnoseArray<I>(codec: Codec, identify: string -> I, cap: int, section: Section, m: map<nat, int>,
      nativeOnly: nat, synapseOnly: nat,
                          ghost native: seq<Visit>, ghost synapse: seq<Visit>, nativeAgain: seq<Visit>,
                              synapseAgain: seq<Visit>)
    returns (d: ArrayDiagnosis<I>)
    requires 0 < cap && Nets(m, Hashes(codec, native, section), Hashes(codec, synapse, section))
    requires nativeOnly == |Hashes(codec, native, section) - Hashes(codec, synapse, section)|
    requires synapseOnly == |Hashes(codec, synapse, section) - Hashes(codec, native, section)|
    ensures Diagnoses(codec, identify, cap, section, d, native, synapse, nativeAgain, synapseAgain)
  {
    ghost var n, s := Hashes(codec, native, section), Hashes(codec, synapse, section);
    var ours := CollectSide(codec, identify, nativeAgain, section, 1, m, cap, n - s);
    var theirs := CollectSide(codec, identify, synapseAgain, section, -1, m, cap, s - n);
    d := ArrayDiagnosis(nativeOnly, synapseOnly, ours, theirs);
  }

  /** What a replay handed to its visitor, and whether it came to its end or broke off there. */
  datatype Replayed = Replayed(visits: seq<Visit>, ended: bool)

  /** Nothing if the first pass broke off; a diagnosis without an error or, if the second pass broke off, with one. */
  datatype Outcome<I> = Nothing | Interrupted(d: StateDiagnosis<I>) | Complete(d: StateDiagnosis<I>)

  /**
   * The verdict on two streams: empty exactly when they agree, and otherwise a diagnosis of both arrays from
   * what the second pass was handed. The second side is not replayed when the first broke off.
   */
  ghost predicate Verdict<I>(codec: Codec, identify: string -> I, cap: int, d: StateDiagnosis<I>,
                             native: seq<Visit>, synapse: seq<Visit>, nativeAgain: Replayed, synapseAgain: Replayed) {
    && (d.Empty() <==> Same(codec, native, synapse))
    && (d.Empty() ==> d == StateDiagnosis(ArrayDiagnosis(0, 0, [], []), ArrayDiagnosis(0, 0, [], [])))
    && (!d.Empty() ==>
          var ours, theirs := nativeAgain.visits, if nativeAgain.ended then synapseAgain.visits else [];
          && Diagnoses(codec, identify, cap, Pdus, d.pdus, native, synapse, ours, theirs)
          && Diagnoses(codec, identify, cap, AuthChain, d.authChain, native, synapse, ours, theirs))
  }

  ghost predicate Same(codec: Codec, native: seq<Visit>, synapse: seq<Visit>) {
    forall section: Section :: Hashes(codec, native, section) == Hashes(codec, synapse, section)
  }

  method CompareResidue<I>(codec: Codec, identify: string -> I, cap: int, residue: Residue, ghost native: seq<Visit>,
      ghost synapse: seq<Visit>,
                           nativeAgain: Replayed, synapseAgain: Replayed)
    returns (r: Outcome<I>)
    requires 0 < cap && forall s: Section :: Netted(codec, residue.Of(s), -1, s, synapse, native)
    ensures !r.Nothing? && Verdict(codec, identify, cap, r.d, native, synapse, nativeAgain, synapseAgain)
    ensures r.Complete? <==> r.d.Empty() || (nativeAgain.ended && synapseAgain.ended)
  {
    assert Netted(codec, residue.Of(Pdus), -1, Pdus, synapse, native);
    assert Netted(codec, residue.Of(AuthChain), -1, AuthChain, synapse, native);
    var ourPdus, theirPdus := CountResidue(residue.pdus, Hashes(codec, native, Pdus), Hashes(codec, synapse, Pdus));
    var ourChain, theirChain :=
        CountResidue(residue.authChain, Hashes(codec, native, AuthChain), Hashes(codec, synapse, AuthChain));
    SameIffCounts(codec, native, synapse);
    if ourPdus == 0 && theirPdus == 0 && ourChain == 0 && theirChain == 0 {
      // Both sides agreed this time; reported rather than swallowed.
      return Complete(StateDiagnosis(ArrayDiagnosis(0, 0, [], []), ArrayDiagnosis(0, 0, [], [])));
    }
    var ours, theirs := nativeAgain.visits, if nativeAgain.ended then synapseAgain.visits else [];
    var p := DiagnoseArray(codec, identify, cap, Pdus, residue.pdus, ourPdus, theirPdus, native, synapse, ours, theirs);
    var a := DiagnoseArray(codec, identify, cap, AuthChain, residue.authChain, ourChain, theirChain, native, synapse,
        ours, theirs);
    var d := StateDiagnosis(p, a);
    r := if nativeAgain.ended && synapseAgain.ended then Complete(d) else Interrupted(d);
  }

  lemma SameIffCounts(codec: Codec, native: seq<Visit>, synapse: seq<Visit>)
    ensures Same(codec, native, synapse) <==>
            && |Hashes(codec, native, Pdus) - Hashes(codec, synapse, Pdus)| == 0
            && |Hashes(codec, synapse, Pdus) - Hashes(codec, native, Pdus)| == 0
            && |Hashes(codec, native, AuthChain) - Hashes(codec, synapse, AuthChain)| == 0
            && |Hashes(codec, synapse, AuthChain) - Hashes(codec, native, AuthChain)| == 0
  {
    NoneLeft(Hashes(codec, native, Pdus), Hashes(codec, synapse, Pdus));
    NoneLeft(Hashes(codec, native, AuthChain), Hashes(codec, synapse, AuthChain));
  }

  /**
   * Names the events behind a digest disagreement. Each side is replayed twice, and a replay may differ
   * from the one before it or break off anywhere.
   */
  method DiagnoseStateMismatch<I>(codec: Codec, identify: string -> I, samples: int, native: Replayed,
      synapse: Replayed, nativeAgain: Replayed, synapseAgain: Replayed)
    returns (r: Outcome<I>)
    ensures r.Nothing? <==> !native.ended || !synapse.ended
    ensures !r.Nothing? ==>
              Verdict(codec, identify, if samples <= 0 then 10 else samples, r.d, native.visits,
                  synapse.visits, nativeAgain, synapseAgain)
    ensures !r.Nothing? ==> (r.Complete? <==> r.d.Empty() || (nativeAgain.ended && synapseAgain.ended))
  {
    var cap := if samples <= 0 then DEFAULT_DIAGNOSIS_SAMPLES else samples;
    if !native.ended {
      return Nothing;
    }
    var residue := TallySide(codec, native.visits, 1, Residue(map[], map[]), []);
    if !synapse.ended {
      return Nothing;
    }
    TurnRound(codec, residue, native.visits);
    residue := TallySide(codec, synapse.visits, -1, residue, native.visits);
    r := CompareResidue(codec, identify, cap, residue, native.visits, synapse.visits, nativeAgain, synapseAgain);
  }

  lemma TurnRound(codec: Codec, r: Residue, visits: seq<Visit>)
    requires forall s: Section :: Netted(codec, r.Of(s), 1, s, visits, [])
    ensures forall s: Section :: Netted(codec, r.Of(s), -1, s, [], visits)
  {
    forall s: Section ensures Netted(codec, r.Of(s), -1, s, [], visits) {
      assert Netted(codec, r.Of(s), 1, s, visits, []);
    }
  }

  lemma NoneLeft(a: multiset<nat>, b: multiset<nat>)
    ensures |a - b| == 0 && |b - a| == 0 <==> a == b
  {
    if |a - b| == 0 && |b - a| == 0 {
      forall h ensures a[h] == b[h] {
        assert h !in a - b && h !in b - a;
      }
    }
  }

  // ---------------------------------------------------------------- what the diagnosis means

  function Sum(hs: seq<nat>): nat {
    if hs == [] then 0 else Sum(hs[..|hs| - 1]) + hs[|hs| - 1]
  }

  lemma {:induction false} SumSplit(a: seq<nat>, b: seq<nat>)
    ensures Sum(a + b) == Sum(a) + Sum(b)
  {
    if b == [] {
      assert a + b == a;
    } else {
      assert (a + b)[..|a + b| - 1] == a + b[..|b| - 1];
      SumSplit(a, b[..|b| - 1]);
    }
  }

  lemma SumOne(x: nat)
    ensures Sum([x]) == x
  {
    assert [x][..0] == [];
  }

  lemma SumMiddle(a: seq<nat>, x: nat, b: seq<nat>)
    ensures Sum(a + ([x] + b)) == x + Sum(a + b)
  {
    SumSplit(a, [x] + b);
    SumSplit([x], b);
    SumSplit(a, b);
    SumOne(x);
  }

  lemma SumWithout(s: seq<nat>, i: nat)
    requires i < |s|
    ensures Sum(s) == s[i] + Sum(s[..i] + s[i + 1..])
  {
    SplitAt(s, i);
    SumMiddle(s[..i], s[i], s[i + 1..]);
  }

  lemma {:induction false} SumOfMultiset(a: seq<nat>, b: seq<nat>)
    requires multiset(a) == multiset(b)
    ensures Sum(a) == Sum(b)
  {
    assert |multiset(a)| == |a| && |multiset(b)| == |b|;
    if a != [] {
      var i := FindFirst(a, b);
      SumWithout(a, 0);
      SumWithout(b, i);
      assert a[..0] + a[1..] == a[1..];
      SumOfMultiset(a[1..], b[..i] + b[i + 1..]);
    }
  }

  lemma {:induction false} DigestSumsHashes(codec: Codec, visits: seq<Visit>, section: Section)
    requires Genuine(codec, visits)
    ensures SumOf(codec, RawsOf(visits, section)) == Sum(HashSeq(codec, visits, section))
  {
    if visits != [] {
      var front, last := visits[..|visits| - 1], visits[|visits| - 1];
      assert last in visits;
      DigestSumsHashes(codec, front, section);
      var raws, hs := RawsOf(front, section), HashSeq(codec, front, section);
      SumNext(codec, raws, last.raw);
      assert (hs + [codec.hash(last.canonical)])[..|hs|] == hs;
    }
  }

  /**
   * Two responses whose digests disagree differ as multisets of hashes in some array, so their diagnosis
   * is never empty. Nothing is assumed about collisions.
   */
  lemma DisagreementIsFound(codec: Codec, native: seq<Token>, synapse: seq<Token>)
    requires ScanResponse(codec, native).Some? && ScanResponse(codec, synapse).Some?
    requires var n, s := ScanResponse(codec, native).value, ScanResponse(codec, synapse).value;
             !ResultOf(codec, n).Agrees(ResultOf(codec, s))
    ensures !Same(codec, ScanResponse(codec, native).value.visits, ScanResponse(codec, synapse).value.visits)
  {
    var n, s := ScanResponse(codec, native).value.visits, ScanResponse(codec, synapse).value.visits;
    ScanIsGenuine(codec, native);
    ScanIsGenuine(codec, synapse);
    if Same(codec, n, s) {
      SameDigests(codec, n, s);
      assert false;
    }
  }

  lemma SameDigests(codec: Codec, n: seq<Visit>, s: seq<Visit>)
    requires Genuine(codec, n) && Genuine(codec, s) && Same(codec, n, s)
    ensures forall section: Section :: SumOf(codec, RawsOf(n, section)) == SumOf(codec, RawsOf(s, section))
  {
    forall section: Section ensures SumOf(codec, RawsOf(n, section)) == SumOf(codec, RawsOf(s, section)) {
      assert Hashes(codec, n, section) == Hashes(codec, s, section);
      DigestSumsHashes(codec, n, section);
      DigestSumsHashes(codec, s, section);
      SumOfMultiset(HashSeq(codec, n, section), HashSeq(codec, s, section));
    }
  }

  /** The two counts differ by as much as the two arrays do in length. */
  lemma CountsBalance(codec: Codec, native: seq<Visit>, synapse: seq<Visit>, section: Section)
    ensures var n, s := Hashes(codec, native, section), Hashes(codec, synapse, section);
            |n - s| - |s - n| == |n| - |s|
  {
    var n, s := Hashes(codec, native, section), Hashes(codec, synapse, section);
    assert n == (n - s) + (n * s);
    assert s == (s - n) + (n * s);
  }

  /**
   * When a replay repeats what it said, every event of the residue is met again and only the cap limits the samples.
   */
  lemma RepeatedReplayNamesAll<I>(codec: Codec, identify: string -> I, cap: int, section: Section, d: ArrayDiagnosis<I>,
                                  native: seq<Visit>, synapse: seq<Visit>, nativeAgain: seq<Visit>,
                                      synapseAgain: seq<Visit>)
    requires Diagnoses(codec, identify, cap, section, d, native, synapse, nativeAgain, synapseAgain)
    requires Hashes(codec, nativeAgain, section) == Hashes(codec, native, section)
    requires Hashes(codec, synapseAgain, section) == Hashes(codec, synapse, section)
    ensures |d.nativeSamples| == Min(cap, d.nativeOnly) && |d.synapseSamples| == Min(cap, d.synapseOnly)
    ensures var n, s := Hashes(codec, native, section), Hashes(codec, synapse, section);
            && (d.nativeOnly <= cap ==> AllNamed(codec, identify, d.nativeSamples, nativeAgain, section, n - s))
            && (d.synapseOnly <= cap ==> AllNamed(codec, identify, d.synapseSamples, synapseAgain, section, s - n))
  {
    var n, s := Hashes(codec, native, section), Hashes(codec, synapse, section);
    assert (n - s) * n == n - s;
    assert (s - n) * s == s - n;
    if d.nativeOnly <= cap {
      EnoughNamed(codec, identify, d.nativeSamples, nativeAgain, section, n - s);
    }
    if d.synapseOnly <= cap {
      EnoughNamed(codec, identify, d.synapseSamples, synapseAgain, section, s - n);
    }
  }

  /** The samples name different events of the stream, and exactly the residue, repetitions included. */
  ghost predicate AllNamed<I>(codec: Codec, identify: string -> I, samples: seq<I>, visits: seq<Visit>,
      section: Section, residue: multiset<nat>)
  {
    exists at ::
        Places(visits, section, at) && Names(identify, samples, visits, section, at) &&
        HashesAt(codec, visits, section, at) == residue
  }

  lemma EnoughNamed<I>(codec: Codec, identify: string -> I, samples: seq<I>, visits: seq<Visit>, section: Section,
      residue: multiset<nat>)
    requires Drawn(codec, identify, samples, visits, section, residue) && |samples| == |residue|
    ensures AllNamed(codec, identify, samples, visits, section, residue)
  {
    var at :| Places(visits, section, at) && Names(identify, samples, visits, section, at) &&
        HashesAt(codec, visits, section, at) <= residue;
    var named := HashesAt(codec, visits, section, at);
    HashPerPlace(codec, visits, section, at);
    assert residue == named + (residue - named);
  }
}
