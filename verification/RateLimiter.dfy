/**
 * Per-origin rate limiting: reject, sleep, queue. Requests of one origin run concurrently and meet in
 * short lock sections; a release hands its slot straight to the next waiter, and a cancelled waiter may
 * find that the slot was handed to it in the meantime. The protocol is a state machine whose steps are
 * the lock sections and the two ends of the wait, so a run is any interleaving of any requests.
 */
module RateLimiter {
  import opened Basics

  // ---------------------------------------------------------------- settings

  datatype Settings = Settings(windowSize: int, sleepLimit: int, sleepDelay: int, rejectLimit: int, concurrent: int) {
    function WithDefaults(): Settings {
      Settings(
        if windowSize == 0 then 1000 else windowSize,
        if sleepLimit == 0 then 10 else sleepLimit,
        if sleepDelay == 0 then 500 else sleepDelay,
        if rejectLimit == 0 then 50 else rejectLimit,
        if concurrent == 0 then 3 else concurrent)
    }

    /** What Validate accepts. */
    predicate Validated() {
      0 <= windowSize && 0 <= sleepLimit && 0 <= sleepDelay && 0 <= rejectLimit && 0 <= concurrent
    }

    predicate Effective() {
      0 < windowSize && 0 < sleepLimit && 0 < sleepDelay && 0 < rejectLimit && 0 < concurrent
    }
  }

  // ---------------------------------------------------------------- the state machine

  /** A request, or equally the channel it waits on. */
  type Request = nat

  /**
   * Where a request is. Gap is the stretch between the first lock section and the second, Leaving a
   * waiter that has chosen its cancelled context and not yet taken the lock.
   */
  datatype Phase = Sleeping | Gap | Waiting | Leaving | Running | Finished | Refused

  /** The fields of a hostLimiter, the state of the channels and of the requests, and what has happened so far. */
  datatype Host = Host(
    requestTimes: seq<int>,
    sleeping: int,
    queued: int,
    processing: int,
    waiters: seq<Request>,
    closed: set<Request>,
    phase: map<Request, Phase>,
    admitted: seq<int>,
    enqueued: seq<Request>,
    granted: seq<Request>,
    withdrawn: set<Request>)

  datatype Event =
    | Arrive(r: Request, now: int)
    | Wake(r: Request, cancelled: bool)
    | Enter(r: Request)
    | Resume(r: Request)
    | GiveUp(r: Request)
    | Abandon(r: Request)
    | Release(r: Request)

  function Recent(times: seq<int>, cutoff: int): seq<int> {
    if times == [] then []
    else if times[0] > cutoff then [times[0]] + Recent(times[1..], cutoff)
    else Recent(times[1..], cutoff)
  }

  ghost predicate InPhase(h: Host, r: Request, p: Phase) {
    r in h.phase && h.phase[r] == p
  }

  ghost predicate Enabled(h: Host, e: Event) {
    match e
    case Arrive(r, _) => r !in h.phase
    case Wake(r, _) => InPhase(h, r, Sleeping)
    case Enter(r) => InPhase(h, r, Gap)
    case Resume(r) => InPhase(h, r, Waiting) && r in h.closed
    case GiveUp(r) => InPhase(h, r, Waiting)
    case Abandon(r) => InPhase(h, r, Leaving)
    case Release(r) => InPhase(h, r, Running) || InPhase(h, r, Finished)
  }

  /** Frees a slot: to the first waiter if there is one, else to the pool. */
  ghost function HandOff(h: Host): Host {
    if h.waiters == [] then h.(processing := h.processing - 1)
    else h.(waiters := h.waiters[1..], queued := h.queued - 1, closed := h.closed + {h.waiters[0]},
            granted := h.granted + [h.waiters[0]])
  }

  ghost function DropFirst(s: seq<Request>, r: Request): seq<Request> {
    if s == [] then [] else if s[0] == r then s[1..] else [s[0]] + DropFirst(s[1..], r)
  }

  ghost function Step(s: Settings, h: Host, e: Event): Host {
    match e
    case Arrive(r, now) =>
      var kept := Recent(h.requestTimes, now - s.windowSize);
      if h.sleeping + h.queued > s.rejectLimit then h.(requestTimes := kept, phase := h.phase[r := Refused])
      else if |kept| + 1 > s.sleepLimit then
        h.(requestTimes := kept + [now], admitted := h.admitted + [now], sleeping := h.sleeping + 1,
            phase := h.phase[r := Sleeping])
      else
        h.(requestTimes := kept + [now], admitted := h.admitted + [now], phase := h.phase[r := Gap])
    case Wake(r, cancelled) => h.(sleeping := h.sleeping - 1, phase := h.phase[r := if cancelled then Refused else Gap])
    case Enter(r) =>
      if h.processing < s.concurrent then h.(processing := h.processing + 1, phase := h.phase[r := Running])
      else h.(waiters := h.waiters + [r], queued := h.queued + 1, enqueued := h.enqueued + [r],
              phase := h.phase[r := Waiting])
    case Resume(r) => h.(phase := h.phase[r := Running])
    case GiveUp(r) => h.(phase := h.phase[r := Leaving])
    case Abandon(r) =>
      var h' :=
        if r in h.waiters
            then h.(waiters := DropFirst(h.waiters, r), queued := h.queued - 1, withdrawn := h.withdrawn + {r})
        else if r in h.closed then HandOff(h)
        else h;
      h'.(phase := h.phase[r := Refused])
    case Release(r) =>
      // sync.Once: a second call does nothing
      if InPhase(h, r, Finished) then h else HandOff(h).(phase := h.phase[r := Finished])
  }

  ghost function Fresh(): Host {
    Host([], 0, 0, 0, [], {}, map[], [], [], [], {})
  }

  /** The states a run passes through. */
  ghost predicate IsRun(s: Settings, events: seq<Event>) {
    |events| == 0 ||
    (IsRun(s, events[..|events| - 1]) && Enabled(After(s, events[..|events| - 1]), events[|events| - 1]))
  }

  ghost function After(s: Settings, events: seq<Event>): Host {
    if |events| == 0 then Fresh() else Step(s, After(s, events[..|events| - 1]), events[|events| - 1])
  }

  // ---------------------------------------------------------------- what every step keeps

  /** The request occupies a slot: it runs, or the slot has been handed to it and it has not noticed yet. */
  ghost predicate Holds(h: Host, r: Request) {
    InPhase(h, r, Running) || ((InPhase(h, r, Waiting) || InPhase(h, r, Leaving)) && r in h.closed)
  }

  ghost predicate Queues(h: Host, r: Request) {
    (InPhase(h, r, Waiting) || InPhase(h, r, Leaving)) && r !in h.closed
  }

  ghost function Holders(h: Host): set<Request> {
    set r | r in h.phase && Holds(h, r)
  }

  ghost function Sleepers(h: Host): set<Request> {
    set r | r in h.phase && InPhase(h, r, Sleeping)
  }

  /** The queue's history without those who left it: what the queue owes to arrival order. */
  ghost function Staying(enqueued: seq<Request>, withdrawn: set<Request>): seq<Request> {
    if enqueued == [] then []
    else if enqueued[0] in withdrawn then Staying(enqueued[1..], withdrawn)
    else [enqueued[0]] + Staying(enqueued[1..], withdrawn)
  }

  ghost predicate Slots(s: Settings, h: Host) {
    && h.processing == |Holders(h)| <= s.concurrent
    && h.sleeping == |Sleepers(h)|
    && (h.waiters != [] ==> h.processing == s.concurrent)
  }

  ghost predicate Queue(h: Host) {
    && h.queued == |h.waiters| && Distinct(h.waiters)
    && (forall r :: r in h.waiters <==> Queues(h, r))
    && h.closed <= h.phase.Keys
    && (forall r :: r in h.closed ==> h.phase[r] != Sleeping && h.phase[r] != Gap)
  }

  ghost predicate History(h: Host) {
    && Distinct(h.enqueued)
    && (forall r :: r in h.enqueued ==> r in h.phase && h.phase[r] != Sleeping && h.phase[r] != Gap)
    && h.withdrawn <= Elements(h.enqueued)
    && Staying(h.enqueued, h.withdrawn) == h.granted + h.waiters
    && h.closed == Elements(h.granted)
  }

  ghost predicate Inv(s: Settings, h: Host) {
    Slots(s, h) && Queue(h) && History(h)
  }

  lemma {:induction false} StayingAppend(e: seq<Request>, w: set<Request>, r: Request)
    requires r !in w
    ensures Staying(e + [r], w) == Staying(e, w) + [r]
  {
    if e == [] {
      assert e + [r] == [r] && [r][1..] == [];
    } else {
      assert (e + [r])[1..] == e[1..] + [r];
      StayingAppend(e[1..], w, r);
    }
  }

  lemma {:induction false} StayingMembers(e: seq<Request>, w: set<Request>)
    ensures forall r :: r in Staying(e, w) <==> r in e && r !in w
  {
    if e != [] {
      assert e == [e[0]] + e[1..];
      StayingMembers(e[1..], w);
    }
  }

  lemma {:induction false} StayingWithdraw(e: seq<Request>, w: set<Request>, r: Request)
    requires Distinct(e)
    ensures Staying(e, w + {r}) == DropFirst(Staying(e, w), r)
  {
    if e != [] {
      StayingWithdraw(e[1..], w, r);
      StayingMembers(e[1..], w);
      if e[0] == r {
        DropAbsent(Staying(e[1..], w), r);
      }
    }
  }

  lemma {:induction false} DropAbsent(s: seq<Request>, r: Request)
    requires r !in s
    ensures DropFirst(s, r) == s
  {
    if s != [] {
      DropAbsent(s[1..], r);
      assert s == [s[0]] + s[1..];
    }
  }

  lemma {:induction false} DropLater(a: seq<Request>, b: seq<Request>, r: Request)
    requires r !in a
    ensures DropFirst(a + b, r) == a + DropFirst(b, r)
  {
    if a == [] {
      assert a + b == b;
    } else {
      assert (a + b)[1..] == a[1..] + b;
      DropLater(a[1..], b, r);
      assert a == [a[0]] + a[1..];
    }
  }

  lemma DropAt(p: seq<Request>, r: Request, rest: seq<Request>)
    requires r !in p
    ensures DropFirst(p + ([r] + rest), r) == p + rest
  {
    DropLater(p, [r] + rest, r);
    assert ([r] + rest)[0] == r && ([r] + rest)[1..] == rest;
  }

  lemma {:induction false} DropOne(s: seq<Request>, r: Request)
    requires Distinct(s) && r in s
    ensures Distinct(DropFirst(s, r)) && |DropFirst(s, r)| == |s| - 1
    ensures forall x :: x in DropFirst(s, r) <==> x in s && x != r
  {
    assert s == [s[0]] + s[1..];
    if s[0] != r {
      DropOne(s[1..], r);
      PushMembers(DropFirst(s[1..], r), s[0]);
    }
  }

  /** A step that moves one request between phases that hold no slot leaves the holders alone. */
  lemma SameHolders(h: Host, h': Host)
    requires forall x :: Holds(h', x) <==> Holds(h, x)
    ensures Holders(h') == Holders(h)
  {}

  lemma SameSleepers(h: Host, h': Host)
    requires forall x :: InPhase(h', x, Sleeping) <==> InPhase(h, x, Sleeping)
    ensures Sleepers(h') == Sleepers(h)
  {}

  lemma ArriveSlots(s: Settings, h: Host, r: Request, now: int)
    requires Slots(s, h) && Queue(h) && Enabled(h, Arrive(r, now))
    ensures Slots(s, Step(s, h, Arrive(r, now)))
  {
    var h' := Step(s, h, Arrive(r, now));
    SameHolders(h, h');
    if InPhase(h', r, Sleeping) {
      MoreSleepers(h, h', r);
    } else {
      SameSleepers(h, h');
    }
  }

  lemma MoreSleepers(h: Host, h': Host, r: Request)
    requires !InPhase(h, r, Sleeping)
    requires forall x :: InPhase(h', x, Sleeping) <==> InPhase(h, x, Sleeping) || x == r
    ensures |Sleepers(h')| == |Sleepers(h)| + 1
  {
    assert Sleepers(h') == Sleepers(h) + {r};
  }

  lemma MoreHolders(h: Host, h': Host, r: Request)
    requires !Holds(h, r)
    requires forall x :: Holds(h', x) <==> Holds(h, x) || x == r
    ensures |Holders(h')| == |Holders(h)| + 1
  {
    assert Holders(h') == Holders(h) + {r};
  }

  lemma FewerHolders(h: Host, h': Host, r: Request)
    requires Holds(h, r)
    requires forall x :: Holds(h', x) <==> Holds(h, x) && x != r
    ensures |Holders(h')| == |Holders(h)| - 1
  {
    assert r in Holders(h);
    assert Holders(h') == Holders(h) - {r};
  }

  lemma MovedHolders(h: Host, h': Host, r: Request, next: Request)
    requires Holds(h, r) && !Holds(h, next)
    requires forall x :: Holds(h', x) <==> (Holds(h, x) && x != r) || x == next
    ensures |Holders(h')| == |Holders(h)|
  {
    assert r in Holders(h);
    assert Holders(h') == Holders(h) - {r} + {next};
  }

  lemma ArriveQueue(s: Settings, h: Host, r: Request, now: int)
    requires Queue(h) && Enabled(h, Arrive(r, now))
    ensures Queue(Step(s, h, Arrive(r, now)))
  {
    var h' := Step(s, h, Arrive(r, now));
    assert forall x :: Queues(h', x) <==> Queues(h, x);
  }

  lemma ArriveHistory(s: Settings, h: Host, r: Request, now: int)
    requires History(h) && Enabled(h, Arrive(r, now))
    ensures History(Step(s, h, Arrive(r, now)))
  {}

  lemma ArriveKeeps(s: Settings, h: Host, r: Request, now: int)
    requires Inv(s, h) && Enabled(h, Arrive(r, now))
    ensures Inv(s, Step(s, h, Arrive(r, now)))
  {
    ArriveSlots(s, h, r, now);
    ArriveQueue(s, h, r, now);
    ArriveHistory(s, h, r, now);
  }

  lemma WakeKeeps(s: Settings, h: Host, r: Request, cancelled: bool)
    requires Inv(s, h) && Enabled(h, Wake(r, cancelled))
    ensures Inv(s, Step(s, h, Wake(r, cancelled)))
  {
    var h' := Step(s, h, Wake(r, cancelled));
    assert Holders(h') == Holders(h) by { assert forall x :: Holds(h', x) <==> Holds(h, x); }
    assert r in Sleepers(h);
    assert Sleepers(h') == Sleepers(h) - {r};
  }

  lemma EnterSlots(s: Settings, h: Host, r: Request)
    requires Slots(s, h) && Queue(h) && Enabled(h, Enter(r))
    ensures Slots(s, Step(s, h, Enter(r)))
  {
    var h' := Step(s, h, Enter(r));
    SameSleepers(h, h');
    if h.processing < s.concurrent {
      MoreHolders(h, h', r);
    } else {
      SameHolders(h, h');
    }
  }

  lemma EnterQueue(s: Settings, h: Host, r: Request)
    requires Queue(h) && Enabled(h, Enter(r))
    ensures Queue(Step(s, h, Enter(r)))
  {
    var h' := Step(s, h, Enter(r));
    if h.processing < s.concurrent {
      assert forall x :: Queues(h', x) <==> Queues(h, x);
    } else {
      AppendMembers(h.waiters, r);
      assert forall x :: Queues(h', x) <==> Queues(h, x) || x == r;
    }
  }

  lemma EnterHistory(s: Settings, h: Host, r: Request)
    requires Queue(h) && History(h) && Enabled(h, Enter(r))
    ensures History(Step(s, h, Enter(r)))
  {
    if h.processing >= s.concurrent {
      AppendMembers(h.enqueued, r);
      StayingAppend(h.enqueued, h.withdrawn, r);
      assert h.granted + h.waiters + [r] == h.granted + (h.waiters + [r]);
    }
  }

  lemma EnterKeeps(s: Settings, h: Host, r: Request)
    requires Inv(s, h) && Enabled(h, Enter(r))
    ensures Inv(s, Step(s, h, Enter(r)))
  {
    EnterSlots(s, h, r);
    EnterQueue(s, h, r);
    EnterHistory(s, h, r);
  }

  lemma ResumeKeeps(s: Settings, h: Host, r: Request)
    requires Inv(s, h) && Enabled(h, Resume(r))
    ensures Inv(s, Step(s, h, Resume(r)))
  {
    var h' := Step(s, h, Resume(r));
    assert Sleepers(h') == Sleepers(h);
    assert Holders(h') == Holders(h) by { assert forall x :: Holds(h', x) <==> Holds(h, x); }
  }

  lemma GiveUpKeeps(s: Settings, h: Host, r: Request)
    requires Inv(s, h) && Enabled(h, GiveUp(r))
    ensures Inv(s, Step(s, h, GiveUp(r)))
  {
    var h' := Step(s, h, GiveUp(r));
    assert Sleepers(h') == Sleepers(h);
    assert Holders(h') == Holders(h) by { assert forall x :: Holds(h', x) <==> Holds(h, x); }
  }

  lemma HandOffSlots(s: Settings, h: Host, r: Request, p: Phase)
    requires Slots(s, h) && Queue(h) && Holds(h, r) && (p == Finished || p == Refused)
    ensures Slots(s, HandOff(h).(phase := h.phase[r := p]))
  {
    var h' := HandOff(h).(phase := h.phase[r := p]);
    SameSleepers(h, h');
    if h.waiters == [] {
      FewerHolders(h, h', r);
    } else {
      assert h.waiters[0] in h.waiters && Queues(h, h.waiters[0]);
      MovedHolders(h, h', r, h.waiters[0]);
    }
  }

  lemma HandOffQueue(h: Host, r: Request, p: Phase)
    requires Queue(h) && Holds(h, r) && (p == Finished || p == Refused)
    ensures Queue(HandOff(h).(phase := h.phase[r := p]))
  {
    var h' := HandOff(h).(phase := h.phase[r := p]);
    if h.waiters == [] {
      assert forall x :: Queues(h', x) <==> Queues(h, x);
    } else {
      var next := h.waiters[0];
      assert next in h.waiters && Queues(h, next);
      TailMembers(h.waiters);
      assert forall x :: Queues(h', x) <==> Queues(h, x) && x != next;
    }
  }

  lemma HandOffHistory(h: Host, r: Request, p: Phase)
    requires Queue(h) && History(h) && Holds(h, r) && (p == Finished || p == Refused)
    ensures History(HandOff(h).(phase := h.phase[r := p]))
  {
    if h.waiters != [] {
      var next := h.waiters[0];
      assert h.waiters == [next] + h.waiters[1..];
      assert h.granted + h.waiters == (h.granted + [next]) + h.waiters[1..];
      ElementsJoin(h.granted, [next]);
    }
  }

  /** A holder leaves and its slot goes to the first waiter, or back to the pool when nobody waits. */
  lemma HandOffKeeps(s: Settings, h: Host, r: Request, p: Phase)
    requires Inv(s, h) && Holds(h, r) && (p == Finished || p == Refused)
    ensures Inv(s, HandOff(h).(phase := h.phase[r := p]))
  {
    HandOffSlots(s, h, r, p);
    HandOffQueue(h, r, p);
    HandOffHistory(h, r, p);
  }

  lemma WithdrawSlots(s: Settings, h: Host, r: Request)
    requires Slots(s, h) && Queue(h) && InPhase(h, r, Leaving) && r in h.waiters
    ensures Slots(s, Step(s, h, Abandon(r)))
  {
    var h' := Step(s, h, Abandon(r));
    assert Queues(h, r);
    SameSleepers(h, h');
    SameHolders(h, h');
  }

  lemma WithdrawQueue(s: Settings, h: Host, r: Request)
    requires Queue(h) && InPhase(h, r, Leaving) && r in h.waiters
    ensures Queue(Step(s, h, Abandon(r)))
  {
    var h' := Step(s, h, Abandon(r));
    DropOne(h.waiters, r);
    assert forall x :: Queues(h', x) <==> Queues(h, x) && x != r;
  }

  lemma WithdrawStaying(enqueued: seq<Request>, withdrawn: set<Request>, granted: seq<Request>, waiters: seq<Request>,
      r: Request)
    requires Distinct(enqueued) && Staying(enqueued, withdrawn) == granted + waiters && r !in granted
    ensures Staying(enqueued, withdrawn + {r}) == granted + DropFirst(waiters, r)
  {
    StayingWithdraw(enqueued, withdrawn, r);
    DropLater(granted, waiters, r);
  }

  lemma WithdrawHistory(s: Settings, h: Host, r: Request)
    requires Queue(h) && History(h) && InPhase(h, r, Leaving) && r in h.waiters
    ensures History(Step(s, h, Abandon(r)))
  {
    assert Queues(h, r);
    assert r !in h.granted by { assert r !in Elements(h.granted); }
    WithdrawStaying(h.enqueued, h.withdrawn, h.granted, h.waiters, r);
    assert r in h.enqueued by {
      StayingMembers(h.enqueued, h.withdrawn);
      ElementsJoin(h.granted, h.waiters);
    }
  }

  /** A queued request leaves from wherever it stands. */
  lemma WithdrawKeeps(s: Settings, h: Host, r: Request)
    requires Inv(s, h) && InPhase(h, r, Leaving) && r in h.waiters
    ensures Inv(s, Step(s, h, Abandon(r)))
  {
    WithdrawSlots(s, h, r);
    WithdrawQueue(s, h, r);
    WithdrawHistory(s, h, r);
  }

  /** The race of a cancellation with a hand-off has two outcomes and no third, and either keeps the invariant. */
  lemma AbandonKeeps(s: Settings, h: Host, r: Request)
    requires Inv(s, h) && Enabled(h, Abandon(r))
    ensures Inv(s, Step(s, h, Abandon(r))) && (r in h.waiters) != (r in h.closed)
  {
    if r in h.waiters {
      WithdrawKeeps(s, h, r);
    } else {
      HandOffKeeps(s, h, r, Refused);
    }
  }

  lemma StepKeeps(s: Settings, h: Host, e: Event)
    requires Inv(s, h) && Enabled(h, e)
    ensures Inv(s, Step(s, h, e))
  {
    match e
    case Arrive(r, now) => ArriveKeeps(s, h, r, now);
    case Wake(r, cancelled) => WakeKeeps(s, h, r, cancelled);
    case Enter(r) => EnterKeeps(s, h, r);
    case Resume(r) => ResumeKeeps(s, h, r);
    case GiveUp(r) => GiveUpKeeps(s, h, r);
    case Abandon(r) => AbandonKeeps(s, h, r);
    case Release(r) =>
      if InPhase(h, r, Running) {
        HandOffKeeps(s, h, r, Finished);
      }
  }

  lemma FreshKeeps(s: Settings)
    requires 0 < s.concurrent
    ensures Inv(s, Fresh())
  {
    assert Holders(Fresh()) == {} && Sleepers(Fresh()) == {};
  }

  /** Every reachable state of one hostLimiter, in every interleaving. */
  lemma {:induction false} RunKeeps(s: Settings, events: seq<Event>)
    requires 0 < s.concurrent && IsRun(s, events)
    ensures Inv(s, After(s, events))
  {
    if |events| == 0 {
      FreshKeeps(s);
    } else {
      RunKeeps(s, events[..|events| - 1]);
      StepKeeps(s, After(s, events[..|events| - 1]), events[|events| - 1]);
    }
  }

  // ---------------------------------------------------------------- where a request stands

  /** What has happened to a request: which of the events about it there were, and what three of them found. */
  datatype Deeds = Deeds(arrived: bool, refused: bool, slept: bool, woken: bool, cancelled: bool, entered: bool,
                         tookSlot: bool, resumed: bool, gaveUp: bool, abandoned: bool, released: bool)

  /** What one event adds, given the state it meets. */
  ghost function Done(s: Settings, h: Host, d: Deeds, e: Event, r: Request): Deeds {
    var arrives, letIn := e.Arrive? && e.r == r, h.sleeping + h.queued <= s.rejectLimit;
    Deeds(d.arrived || arrives, d.refused || (arrives && !letIn),
          d.slept || (arrives && letIn && |Recent(h.requestTimes, e.now - s.windowSize)| >= s.sleepLimit),
          d.woken || e == Wake(r, false), d.cancelled || e == Wake(r, true), d.entered || e == Enter(r),
          d.tookSlot || (e == Enter(r) && h.processing < s.concurrent), d.resumed || e == Resume(r),
          d.gaveUp || e == GiveUp(r), d.abandoned || e == Abandon(r), d.released || e == Release(r))
  }

  ghost function DeedsOf(s: Settings, events: seq<Event>, r: Request): Deeds {
    if |events| == 0 then Deeds(false, false, false, false, false, false, false, false, false, false, false)
    else
      var before, e := events[..|events| - 1], events[|events| - 1];
      Done(s, After(s, before), DeedsOf(s, before, r), e, r)
  }

  /** Where a request stands, read off what happened to it. */
  ghost predicate Story(d: Deeds, h: Host, r: Request) {
    && (r in h.phase <==> d.arrived)
    && (InPhase(h, r, Refused) <==> d.refused || d.cancelled || d.abandoned)
    && (InPhase(h, r, Sleeping) <==> d.slept && !d.woken && !d.cancelled)
    && (InPhase(h, r, Gap) <==> d.arrived && !d.refused && (d.slept ==> d.woken) && !d.entered)
    && (InPhase(h, r, Waiting) <==> d.entered && !d.tookSlot && !d.resumed && !d.gaveUp)
    && (InPhase(h, r, Leaving) <==> d.gaveUp && !d.abandoned)
    && (InPhase(h, r, Running) <==> (d.tookSlot || d.resumed) && !d.released)
    && (InPhase(h, r, Finished) <==> d.released)
  }

  /** The lock sections and waits are gone through in order, and each wait has one end. */
  ghost predicate Orderly(d: Deeds) {
    && (d.refused || d.slept ==> d.arrived) && !(d.refused && d.slept)
    && (d.woken || d.cancelled ==> d.slept) && !(d.woken && d.cancelled)
    && (d.entered ==> d.arrived && !d.refused && (d.slept ==> d.woken))
    && (d.tookSlot || d.resumed || d.gaveUp ==> d.entered)
    && !(d.tookSlot && d.resumed) && !(d.tookSlot && d.gaveUp) && !(d.resumed && d.gaveUp)
    && (d.abandoned ==> d.gaveUp) && (d.released ==> d.tookSlot || d.resumed)
  }

  lemma DeedsNext(s: Settings, before: seq<Event>, e: Event, r: Request)
    ensures DeedsOf(s, before + [e], r) == Done(s, After(s, before), DeedsOf(s, before, r), e, r)
  {
    assert (before + [e])[..|before + [e]| - 1] == before;
  }

  ghost predicate ArrivesAt(events: seq<Event>, r: Request, i: nat) {
    i < |events| && events[i].Arrive? && events[i].r == r
  }

  ghost predicate FullAt(s: Settings, events: seq<Event>, i: nat)
    requires i < |events|
  {
    s.rejectLimit < After(s, events[..i]).sleeping + After(s, events[..i]).queued
  }

  /** The flags are what they are called: the events are in the run, and the refusal is by the count at that moment. */
  lemma {:induction false} DeedsAreEvents(s: Settings, events: seq<Event>, r: Request)
    ensures var d := DeedsOf(s, events, r);
            && (d.woken <==> Wake(r, false) in events) && (d.cancelled <==> Wake(r, true) in events)
            && (d.entered <==> Enter(r) in events) && (d.resumed <==> Resume(r) in events)
            && (d.gaveUp <==> GiveUp(r) in events) && (d.abandoned <==> Abandon(r) in events)
            && (d.released <==> Release(r) in events)
  {
    if |events| > 0 {
      var before, e := events[..|events| - 1], events[|events| - 1];
      DeedsAreEvents(s, before, r);
      assert events == before + [e];
    }
  }

  /** It arrived when more than the reject limit slept and waited. */
  ghost predicate FoundFull(s: Settings, events: seq<Event>, r: Request) {
    exists i: nat :: ArrivesAt(events, r, i) && FullAt(s, events, i)
  }

  lemma AtFront(s: Settings, before: seq<Event>, e: Event, r: Request, i: nat)
    requires i < |before|
    ensures ArrivesAt(before + [e], r, i) <==> ArrivesAt(before, r, i)
    ensures FullAt(s, before + [e], i) <==> FullAt(s, before, i)
  {
    assert (before + [e])[..i] == before[..i];
  }

  lemma AtEnd(s: Settings, before: seq<Event>, e: Event, r: Request)
    ensures ArrivesAt(before + [e], r, |before|) <==> e.Arrive? && e.r == r
    ensures FullAt(s, before + [e], |before|) <==> s.rejectLimit < After(s, before).sleeping + After(s, before).queued
  {
    assert (before + [e])[..|before|] == before;
  }

  lemma FoundFullNext(s: Settings, before: seq<Event>, e: Event, r: Request)
    ensures FoundFull(s, before + [e], r) <==>
            FoundFull(s, before, r) ||
            (e.Arrive? && e.r == r && s.rejectLimit < After(s, before).sleeping + After(s, before).queued)
  {
    AtEnd(s, before, e, r);
    if FoundFull(s, before, r) {
      var i: nat :| ArrivesAt(before, r, i) && FullAt(s, before, i);
      AtFront(s, before, e, r, i);
    }
    if FoundFull(s, before + [e], r) {
      var i: nat :| ArrivesAt(before + [e], r, i) && FullAt(s, before + [e], i);
      if i < |before| {
        AtFront(s, before, e, r, i);
      }
    }
  }

  lemma {:induction false} RefusalIsByCount(s: Settings, events: seq<Event>, r: Request)
    ensures DeedsOf(s, events, r).refused <==> FoundFull(s, events, r)
  {
    if |events| > 0 {
      var before, e := events[..|events| - 1], events[|events| - 1];
      assert events == before + [e];
      RefusalIsByCount(s, before, r);
      FoundFullNext(s, before, e, r);
      DeedsNext(s, before, e, r);
    }
  }

  /** What a step does to the request it is about. */
  lemma StoryOfOwn(s: Settings, h: Host, d: Deeds, e: Event)
    requires Enabled(h, e) && Story(d, h, e.r) && Orderly(d)
    ensures Story(Done(s, h, d, e, e.r), Step(s, h, e), e.r) && Orderly(Done(s, h, d, e, e.r))
  {}

  lemma StoryOfOthers(s: Settings, h: Host, d: Deeds, e: Event, r: Request)
    requires Enabled(h, e) && r != e.r && Story(d, h, r)
    ensures Story(d, Step(s, h, e), r)
  {
    MovesOne(s, h, e);
    var h' := Step(s, h, e);
    assert r in h.phase <==> r in h.phase - {e.r};
    assert r in h'.phase <==> r in h'.phase - {e.r};
  }

  /**
   * In every run and for every request, what happened to it says where it stands: it is refused exactly if it
   * was refused on arrival, or its context was cancelled while it slept, or it abandoned its wait.
   */
  lemma {:induction false} PhaseTellsStory(s: Settings, events: seq<Event>, r: Request)
    requires IsRun(s, events)
    ensures Story(DeedsOf(s, events, r), After(s, events), r) && Orderly(DeedsOf(s, events, r))
  {
    if |events| > 0 {
      var before, e := events[..|events| - 1], events[|events| - 1];
      assert events == before + [e];
      PhaseTellsStory(s, before, r);
      DeedsNext(s, before, e, r);
      if r == e.r {
        StoryOfOwn(s, After(s, before), DeedsOf(s, before, r), e);
      } else {
        StoryOfOthers(s, After(s, before), DeedsOf(s, before, r), e, r);
      }
    }
  }

  /** A request is refused exactly for one of three reasons. */
  lemma RefusedForCause(s: Settings, events: seq<Event>, r: Request)
    requires IsRun(s, events)
    ensures InPhase(After(s, events), r, Refused) <==>
            FoundFull(s, events, r) || Wake(r, true) in events || Abandon(r) in events
  {
    PhaseTellsStory(s, events, r);
    DeedsAreEvents(s, events, r);
    RefusalIsByCount(s, events, r);
  }

  /** A sleeper whose context is not cancelled goes on to the second lock section; a cancelled one is turned away. */
  lemma SleeperGoesOn(s: Settings, events: seq<Event>, r: Request, cancelled: bool)
    requires IsRun(s, events + [Wake(r, cancelled)])
    ensures Enabled(After(s, events + [Wake(r, cancelled)]), Enter(r)) <==> !cancelled
    ensures InPhase(After(s, events + [Wake(r, cancelled)]), r, Refused) <==> cancelled
  {
    var all := events + [Wake(r, cancelled)];
    assert all[..|all| - 1] == events && all[|all| - 1] == Wake(r, cancelled);
    PhaseTellsStory(s, events, r);
    PhaseTellsStory(s, all, r);
    DeedsNext(s, events, Wake(r, cancelled), r);
  }

  // ---------------------------------------------------------------- what a run guarantees

  /**
   * Zero does not disable a stage: a setting that is zero takes its default, any other is kept, so every
   * accepted configuration runs with all five settings positive.
   */
  lemma ZeroTakesDefault(s: Settings)
    ensures s.WithDefaults().windowSize == (if s.windowSize != 0 then s.windowSize else 1000)
    ensures s.WithDefaults().sleepLimit == (if s.sleepLimit != 0 then s.sleepLimit else 10)
    ensures s.WithDefaults().sleepDelay == (if s.sleepDelay != 0 then s.sleepDelay else 500)
    ensures s.WithDefaults().rejectLimit == (if s.rejectLimit != 0 then s.rejectLimit else 50)
    ensures s.WithDefaults().concurrent == (if s.concurrent != 0 then s.concurrent else 3)
    ensures s.Validated() ==> s.WithDefaults().Effective()
  {}

  /** A request takes a free slot only when nobody waits; otherwise it goes behind all who do. */
  lemma NoOvertaking(s: Settings, events: seq<Event>, r: Request)
    requires 0 < s.concurrent && IsRun(s, events) && Enabled(After(s, events), Enter(r))
    ensures var h := After(s, events); var h' := Step(s, h, Enter(r));
            if InPhase(h', r, Running) then h.waiters == [] else h'.waiters == h.waiters + [r]
  {
    RunKeeps(s, events);
  }

  /**
   * Grants follow the queue. Whoever joined the queue and did not leave it of their own accord has been
   * granted a slot or still waits, in the order of joining; no channel is closed twice; and a waiting
   * request is in the queue or has its channel closed, never both and never neither.
   */
  lemma GrantsFollowQueue(s: Settings, events: seq<Event>)
    requires 0 < s.concurrent && IsRun(s, events)
    ensures var h := After(s, events);
            && h.granted <= Staying(h.enqueued, h.withdrawn)
            && Distinct(h.granted) && h.closed == Elements(h.granted)
            && forall r :: InPhase(h, r, Waiting) || InPhase(h, r, Leaving) ==>
                 (r in h.closed) != (r in h.waiters)
  {
    var h := After(s, events);
    RunKeeps(s, events);
    StayingDistinct(h.enqueued, h.withdrawn);
    PrefixDistinct(h.granted, h.waiters);
    assert forall r :: r in h.waiters <==> Queues(h, r);
  }

  lemma PrefixDistinct(a: seq<Request>, b: seq<Request>)
    requires Distinct(a + b)
    ensures Distinct(a)
  {
    assert forall i :: 0 <= i < |a| ==> a[i] == (a + b)[i];
  }

  lemma {:induction false} StayingDistinct(e: seq<Request>, w: set<Request>)
    requires Distinct(e)
    ensures Distinct(Staying(e, w))
  {
    if e != [] {
      StayingDistinct(e[1..], w);
      StayingMembers(e[1..], w);
      if e[0] !in w {
        PushMembers(Staying(e[1..], w), e[0]);
      }
    }
  }

  lemma SomeHolder(h: Host) returns (r: Request)
    requires 0 < |Holders(h)|
    ensures Holds(h, r)
  {
    r :| r in Holders(h);
  }

  /** The request can free its slot, give back the one it was handed, or take that up. */
  ghost predicate CanMove(h: Host, r: Request) {
    || (InPhase(h, r, Running) && Enabled(h, Release(r)))
    || (InPhase(h, r, Leaving) && r in h.closed && Enabled(h, Abandon(r)))
    || Enabled(h, Resume(r))
  }

  /** While somebody waits, some request is able to free a slot or to take up the one it was handed. */
  lemma QueueCanMove(s: Settings, events: seq<Event>)
    requires 0 < s.concurrent && IsRun(s, events) && After(s, events).waiters != []
    ensures var h := After(s, events);
            exists r :: CanMove(h, r)
  {
    var h := After(s, events);
    RunKeeps(s, events);
    var r := SomeHolder(h);
    assert CanMove(h, r);
  }

  /** Nobody sleeps, waits or runs. */
  ghost predicate AllAway(h: Host) {
    forall r :: r in h.phase ==> h.phase[r] == Gap || h.phase[r] == Finished || h.phase[r] == Refused
  }

  lemma CountersTell(s: Settings, h: Host)
    requires Inv(s, h)
    ensures (h.processing == 0 && h.queued == 0 && h.sleeping == 0) <==> AllAway(h)
  {
    if h.processing == 0 && h.queued == 0 && h.sleeping == 0 {
      assert Holders(h) == {} && Sleepers(h) == {};
      forall r | r in h.phase ensures h.phase[r] == Gap || h.phase[r] == Finished || h.phase[r] == Refused {
        assert r !in Holders(h) && r !in Sleepers(h) && r !in h.waiters;
      }
    }
    if AllAway(h) {
      assert Holders(h) == {} && Sleepers(h) == {};
      assert forall r :: r in h.waiters ==> Queues(h, r);
      SomeMember(h.waiters);
    }
  }

  /**
   * The counter part of Cleanup's idle test says that no request sleeps, waits or runs. It does not say that
   * no request is under way: one that stands between the two lock sections is counted nowhere.
   */
  lemma IdleMeansNobodyCounted(s: Settings, events: seq<Event>)
    requires 0 < s.concurrent && IsRun(s, events)
    ensures var h := After(s, events); (h.processing == 0 && h.queued == 0 && h.sleeping == 0) <==> AllAway(h)
  {
    RunKeeps(s, events);
    CountersTell(s, After(s, events));
  }

  // ---------------------------------------------------------------- the reject limit

  lemma Extend(s: Settings, events: seq<Event>, e: Event)
    requires IsRun(s, events) && Enabled(After(s, events), e)
    ensures IsRun(s, events + [e]) && After(s, events + [e]) == Step(s, After(s, events), e)
  {
    assert (events + [e])[..|events + [e]| - 1] == events;
  }

  /** The clock readings of the arrivals of a run that were not refused. */
  ghost function LetIn(s: Settings, events: seq<Event>): seq<int> {
    if |events| == 0 then []
    else
      var before, e := events[..|events| - 1], events[|events| - 1];
      LetIn(s, before) + (if e.Arrive? && !InPhase(After(s, events), e.r, Refused) then [e.now] else [])
  }

  /** The same run without its refused arrivals. */
  ghost function Unrejected(s: Settings, events: seq<Event>): seq<Event> {
    if |events| == 0 then []
    else
      var before, e := events[..|events| - 1], events[|events| - 1];
      Unrejected(s, before) + (if e.Arrive? && InPhase(After(s, events), e.r, Refused) then [] else [e])
  }

  /** The recorded history is the readings of those that were let in, and of nobody else. */
  lemma {:induction false} AdmittedAreLetIn(s: Settings, events: seq<Event>)
    ensures After(s, events).admitted == LetIn(s, events)
  {
    if |events| > 0 {
      var before, e := events[..|events| - 1], events[|events| - 1];
      AdmittedAreLetIn(s, before);
      AdmitsOne(s, After(s, before), e);
    }
  }

  lemma AdmitsOne(s: Settings, h: Host, e: Event)
    ensures Step(s, h, e).admitted == h.admitted +
            (if e.Arrive? && !InPhase(Step(s, h, e), e.r, Refused) then [e.now] else [])
  {}

  /** Two states that differ by requests refused on arrival, and by what these pruned below a cutoff. */
  ghost predicate Shadows(a: Host, b: Host, low: int) {
    && a.(requestTimes := [], phase := map[]) == b.(requestTimes := [], phase := map[])
    && (forall r :: r in b.phase ==> r in a.phase && a.phase[r] == b.phase[r])
    && (forall r :: r in a.phase && r !in b.phase ==> a.phase[r] == Refused)
    && (forall cutoff {:trigger Recent(a.requestTimes, cutoff)} :: low <= cutoff ==>
        Recent(a.requestTimes, cutoff) == Recent(b.requestTimes, cutoff))
  }

  lemma ShadowRefused(s: Settings, a: Host, b: Host, low: int, e: Event)
    requires Shadows(a, b, low) && Enabled(a, e) && e.Arrive? && e.now - s.windowSize <= low &&
             s.rejectLimit < a.sleeping + a.queued
    ensures Shadows(Step(s, a, e), b, low)
  {
    forall cutoff | low <= cutoff ensures Recent(Step(s, a, e).requestTimes, cutoff) == Recent(b.requestTimes, cutoff) {
      RecentTwice(a.requestTimes, e.now - s.windowSize, cutoff);
    }
  }

  /** An arrival that is let in leaves both windows equal, whatever was pruned before. */
  lemma ShadowArrival(s: Settings, a: Host, b: Host, low: int, e: Event)
    requires Enabled(a, e) && e.Arrive? && Shadows(a, b, e.now - s.windowSize) && a.sleeping + a.queued <= s.rejectLimit
    ensures Enabled(b, e) && Shadows(Step(s, a, e), Step(s, b, e), low)
  {
    assert Recent(a.requestTimes, e.now - s.windowSize) == Recent(b.requestTimes, e.now - s.windowSize);
    assert Step(s, a, e).requestTimes == Step(s, b, e).requestTimes;
  }

  lemma ShadowStep(s: Settings, a: Host, b: Host, low: int, e: Event)
    requires Shadows(a, b, low) && Enabled(a, e) && !e.Arrive?
    ensures Enabled(b, e) && Shadows(Step(s, a, e), Step(s, b, e), low)
  {
    assert e.r in b.phase;
    assert Step(s, a, e).requestTimes == a.requestTimes && Step(s, b, e).requestTimes == b.requestTimes;
  }

  /** The clock readings of the arrivals of a run that were refused. */
  ghost function RefusedReadings(s: Settings, events: seq<Event>): set<int> {
    if |events| == 0 then {}
    else
      var before, e := events[..|events| - 1], events[|events| - 1];
      RefusedReadings(s, before) + (if e.Arrive? && InPhase(After(s, events), e.r, Refused) then {e.now} else {})
  }

  /** No arrival reads an earlier clock than a refused arrival before it. */
  ghost predicate NoneBeforeRefused(s: Settings, events: seq<Event>) {
    |events| == 0 ||
    var before, e := events[..|events| - 1], events[|events| - 1];
    NoneBeforeRefused(s, before) && (e.Arrive? ==> forall t :: t in RefusedReadings(s, before) ==> t <= e.now)
  }

  /** No refused arrival has pruned at a later time than this. */
  ghost predicate PrunedBelow(s: Settings, events: seq<Event>, low: int) {
    forall t :: t in RefusedReadings(s, events) ==> t - s.windowSize <= low
  }

  ghost predicate NoTrace(s: Settings, events: seq<Event>, low: int) {
    IsRun(s, Unrejected(s, events)) && Shadows(After(s, events), After(s, Unrejected(s, events)), low)
  }

  lemma TraceOfRefused(s: Settings, before: seq<Event>, e: Event, low: int)
    requires NoTrace(s, before, low) && Enabled(After(s, before), e) && e.Arrive?
    requires e.now - s.windowSize <= low && s.rejectLimit < After(s, before).sleeping + After(s, before).queued
    ensures NoTrace(s, before + [e], low)
  {
    assert (before + [e])[..|before + [e]| - 1] == before;
    ShadowRefused(s, After(s, before), After(s, Unrejected(s, before)), low, e);
    assert Unrejected(s, before + [e]) == Unrejected(s, before);
  }

  lemma TraceOfArrival(s: Settings, before: seq<Event>, e: Event, low: int)
    requires Enabled(After(s, before), e) && e.Arrive? && NoTrace(s, before, e.now - s.windowSize)
    requires After(s, before).sleeping + After(s, before).queued <= s.rejectLimit
    ensures NoTrace(s, before + [e], low)
  {
    var shorter := Unrejected(s, before);
    assert (before + [e])[..|before + [e]| - 1] == before;
    ShadowArrival(s, After(s, before), After(s, shorter), low, e);
    Extend(s, shorter, e);
    assert Unrejected(s, before + [e]) == shorter + [e];
  }

  lemma TraceOfStep(s: Settings, before: seq<Event>, e: Event, low: int)
    requires NoTrace(s, before, low) && Enabled(After(s, before), e) && !e.Arrive?
    ensures NoTrace(s, before + [e], low)
  {
    var shorter := Unrejected(s, before);
    assert (before + [e])[..|before + [e]| - 1] == before;
    ShadowStep(s, After(s, before), After(s, shorter), low, e);
    Extend(s, shorter, e);
    assert Unrejected(s, before + [e]) == shorter + [e];
  }

  lemma RefusedNext(s: Settings, before: seq<Event>, e: Event)
    ensures RefusedReadings(s, before + [e]) ==
            RefusedReadings(s, before) +
                (if e.Arrive? && s.rejectLimit < After(s, before).sleeping + After(s, before).queued then {e.now}
                 else {})
    ensures NoneBeforeRefused(s, before + [e]) ==>
              NoneBeforeRefused(s, before) && (e.Arrive? ==> forall t :: t in RefusedReadings(s, before) ==> t <= e.now)
  {
    assert (before + [e])[..|before + [e]| - 1] == before;
  }

  /**
   * Refused requests leave no trace: where no arrival reads an earlier clock than a refused one before it,
   * the run without them is a run, and it ends with the same counters, queue, history and window and with
   * everybody else where they were.
   */
  lemma {:induction false} RefusedLeaveNoTrace(s: Settings, events: seq<Event>, low: int)
    requires IsRun(s, events) && NoneBeforeRefused(s, events) && PrunedBelow(s, events, low)
    ensures NoTrace(s, events, low)
  {
    if |events| > 0 {
      var before, e := events[..|events| - 1], events[|events| - 1];
      assert events == before + [e];
      RefusedNext(s, before, e);
      if !e.Arrive? {
        RefusedLeaveNoTrace(s, before, low);
        TraceOfStep(s, before, e, low);
      } else if s.rejectLimit < After(s, before).sleeping + After(s, before).queued {
        RefusedLeaveNoTrace(s, before, low);
        TraceOfRefused(s, before, e, low);
      } else {
        RefusedLeaveNoTrace(s, before, e.now - s.windowSize);
        TraceOfArrival(s, before, e, low);
      }
    }
  }

  /** A clock that advances is more than that takes. */
  lemma {:induction false} AdvancingIsEnough(s: Settings, events: seq<Event>, last: int)
    requires ClockAdvances(events) && OnTime(events, last)
    ensures NoneBeforeRefused(s, events) && forall t :: t in RefusedReadings(s, events) ==> t <= last
  {
    if |events| > 0 {
      var before, e := events[..|events| - 1], events[|events| - 1];
      assert forall i :: 0 <= i < |before| ==> before[i] == events[i];
      AdvancingIsEnough(s, before, if e.Arrive? then e.now else last);
      assert e.Arrive? ==> events[|events| - 1].now <= last;
    }
  }

  ghost function InGap(h: Host): set<Request> {
    set r | r in h.phase && InPhase(h, r, Gap)
  }

  /** Whenever a request arrives, at most k of those let in before it stand between the two lock sections. */
  ghost predicate GapAtMost(s: Settings, events: seq<Event>, k: nat) {
    |events| == 0 ||
    var before := events[..|events| - 1];
    GapAtMost(s, before, k) && (events[|events| - 1].Arrive? ==> |InGap(After(s, before))| <= k)
  }

  lemma GapMoves(h: Host, h': Host, r: Request)
    requires h'.phase - {r} == h.phase - {r}
    ensures InGap(h') - {r} == InGap(h) - {r}
    ensures |InGap(h')| == |InGap(h') - {r}| + (if InPhase(h', r, Gap) then 1 else 0)
  {
    forall x ensures x in InGap(h') - {r} <==> x in InGap(h) - {r} {
      assert x != r ==> (x in h'.phase <==> x in h'.phase - {r}) && (x in h.phase <==> x in h.phase - {r});
    }
    assert r in InGap(h') <==> InPhase(h', r, Gap);
    if r in InGap(h') {
      assert InGap(h') == (InGap(h') - {r}) + {r};
    } else {
      assert InGap(h') == InGap(h') - {r};
    }
  }

  lemma MovesOne(s: Settings, h: Host, e: Event)
    requires Enabled(h, e)
    ensures Step(s, h, e).phase - {e.r} == h.phase - {e.r}
  {}

  /** Only an arrival raises the number of those that sleep, wait, or stand between the two lock sections. */
  lemma CountsOne(s: Settings, h: Host, e: Event)
    requires Enabled(h, e)
    ensures var h' := Step(s, h, e);
            var more := (if InPhase(h', e.r, Gap) then 1 else 0) - (if InPhase(h, e.r, Gap) then 1 else 0);
            h'.sleeping + h'.queued + more <= h.sleeping + h.queued +
                (if e.Arrive? && h.sleeping + h.queued <= s.rejectLimit then 1 else 0)
  {}

  lemma BoundStep(s: Settings, h: Host, e: Event, k: nat)
    requires Enabled(h, e) && (e.Arrive? ==> |InGap(h)| <= k)
    requires h.sleeping + h.queued + |InGap(h)| <= s.rejectLimit + 1 + k
    ensures var h' := Step(s, h, e); h'.sleeping + h'.queued + |InGap(h')| <= s.rejectLimit + 1 + k
  {
    MovesOne(s, h, e);
    GapMoves(h, h, e.r);
    GapMoves(h, Step(s, h, e), e.r);
    CountsOne(s, h, e);
  }

  /** How far the reject limit can be overrun: by as many as stood between the lock sections when someone arrived. */
  lemma {:induction false} WaitingBound(s: Settings, events: seq<Event>, k: nat)
    requires s.Effective() && IsRun(s, events) && GapAtMost(s, events, k)
    ensures var h := After(s, events); h.sleeping + h.queued + |InGap(h)| <= s.rejectLimit + 1 + k
  {
    if |events| == 0 {
      assert InGap(Fresh()) == {};
    } else {
      WaitingBound(s, events[..|events| - 1], k);
      BoundStep(s, After(s, events[..|events| - 1]), events[|events| - 1], k);
    }
  }

  /** One window after the last of the others a request finds the window empty and does not sleep. */
  lemma ArriveAlone(s: Settings, h: Host, r: Request, last: int)
    requires s.Effective() && h.sleeping + h.queued <= s.rejectLimit && r !in h.phase
    requires h.requestTimes == [] || h.requestTimes == [last]
    ensures Step(s, h, Arrive(r, last + s.windowSize)) ==
            h.(requestTimes := [last + s.windowSize], admitted := h.admitted + [last + s.windowSize],
                phase := h.phase[r := Gap])
  {
    assert [last][1..] == [];
    assert Recent(h.requestTimes, last) == [];
  }

  ghost predicate ClockedBy(events: seq<Event>, last: int) {
    ClockAdvances(events) && OnTime(events, last)
  }

  lemma ClockNext(events: seq<Event>, last: int, e: Event)
    requires ClockedBy(events, last) && (e.Arrive? ==> last <= e.now)
    ensures ClockedBy(events + [e], if e.Arrive? then e.now else last)
  {}

  /**
   * n requests have been let in one window apart; the last g of them stand between the lock sections, the others run
   * or wait.
   */
  ghost predicate Crowd(s: Settings, h: Host, last: int, n: nat, g: nat) {
    && g <= n && (h.requestTimes == [] || h.requestTimes == [last])
    && h.sleeping == 0 && h.processing == Smaller(n - g, s.concurrent) && h.queued == n - g - h.processing
    && |InGap(h)| == g
    && forall r: Request :: (n - g <= r < n ==> InPhase(h, r, Gap)) && (n <= r ==> r !in h.phase)
  }

  function Smaller(a: int, b: int): int {
    if a < b then a else b
  }

  lemma CrowdGrows(s: Settings, h: Host, last: int, n: nat, g: nat)
    requires s.Effective() && Crowd(s, h, last, n, g) && h.queued <= s.rejectLimit
    ensures Enabled(h, Arrive(n, last + s.windowSize))
    ensures Crowd(s, Step(s, h, Arrive(n, last + s.windowSize)), last + s.windowSize, n + 1, g + 1)
  {
    var e := Arrive(n, last + s.windowSize);
    ArriveAlone(s, h, n, last);
    MovesOne(s, h, e);
    GapMoves(h, h, n);
    GapMoves(h, Step(s, h, e), n);
  }

  lemma CrowdMoves(s: Settings, h: Host, last: int, n: nat, g: nat)
    requires s.Effective() && Crowd(s, h, last, n, g) && 0 < g
    ensures Enabled(h, Enter(n - g)) && Crowd(s, Step(s, h, Enter(n - g)), last, n, g - 1)
  {
    var e := Enter(n - g);
    assert InPhase(h, n - g, Gap);
    MovesOne(s, h, e);
    GapMoves(h, h, n - g);
    GapMoves(h, Step(s, h, e), n - g);
  }

  ghost predicate CrowdRun(s: Settings, events: seq<Event>, k: nat, last: int, n: nat, g: nat) {
    IsRun(s, events) && ClockedBy(events, last) && GapAtMost(s, events, k) && Crowd(s, After(s, events), last, n, g)
  }

  lemma GapNext(s: Settings, events: seq<Event>, e: Event, k: nat)
    requires GapAtMost(s, events, k) && (e.Arrive? ==> |InGap(After(s, events))| <= k)
    ensures GapAtMost(s, events + [e], k)
  {
    assert (events + [e])[..|events + [e]| - 1] == events;
  }

  lemma CrowdArrives(s: Settings, events: seq<Event>, k: nat, last: int, n: nat, g: nat)
    requires s.Effective() && CrowdRun(s, events, k, last, n, g) && g <= k && n - g <= s.concurrent + s.rejectLimit
    ensures CrowdRun(s, events + [Arrive(n, last + s.windowSize)], k, last + s.windowSize, n + 1, g + 1)
  {
    var e := Arrive(n, last + s.windowSize);
    CrowdGrows(s, After(s, events), last, n, g);
    Extend(s, events, e);
    ClockNext(events, last, e);
    GapNext(s, events, e, k);
  }

  lemma CrowdEnters(s: Settings, events: seq<Event>, k: nat, last: int, n: nat, g: nat)
    requires s.Effective() && CrowdRun(s, events, k, last, n, g) && 0 < g
    ensures CrowdRun(s, events + [Enter(n - g)], k, last, n, g - 1)
  {
    var e := Enter(n - g);
    CrowdMoves(s, After(s, events), last, n, g);
    Extend(s, events, e);
    ClockNext(events, last, e);
    GapNext(s, events, e, k);
  }

  lemma NoCrowd(s: Settings, k: nat)
    requires s.Effective()
    ensures CrowdRun(s, [], k, 0, 0, 0)
  {
    assert InGap(Fresh()) == {};
  }

  /** Some run brings this crowd about. */
  ghost predicate Gathers(s: Settings, k: nat, n: nat, g: nat) {
    exists events, last :: CrowdRun(s, events, k, last, n, g)
  }

  lemma OneArrives(s: Settings, k: nat, n: nat, g: nat)
    requires s.Effective() && Gathers(s, k, n, g) && g <= k && n - g <= s.concurrent + s.rejectLimit
    ensures Gathers(s, k, n + 1, g + 1)
  {
    var events, last :| CrowdRun(s, events, k, last, n, g);
    CrowdArrives(s, events, k, last, n, g);
  }

  lemma OneEnters(s: Settings, k: nat, n: nat, g: nat)
    requires s.Effective() && Gathers(s, k, n, g) && 0 < g
    ensures Gathers(s, k, n, g - 1)
  {
    var events, last :| CrowdRun(s, events, k, last, n, g);
    CrowdEnters(s, events, k, last, n, g);
  }

  /** g of n requests; the quantifiers below wait for this to be asked. */
  ghost predicate Among(g: nat, n: nat) {
    g <= n
  }

  /**
   * What can be brought about when one more may always arrive while no more than room have entered and no
   * more than k stand in the gap, and whoever stands in the gap may enter.
   */
  ghost predicate Grows(gathers: (nat, nat) -> bool, room: nat, k: nat) {
    && gathers(0, 0)
    && (forall n: nat, g: nat {:trigger Among(g, n)} :: Among(g, n) && gathers(n, g) && g <= k && n - g <= room ==>
        gathers(n + 1, g + 1))
    && (forall n: nat, g: nat {:trigger Among(g, n)} :: Among(g, n) && gathers(n, g) && 0 < g ==> gathers(n, g - 1))
  }

  /** Requests arrive and enter one by one, until room is used up. */
  lemma {:induction false} LineUp(gathers: (nat, nat) -> bool, room: nat, k: nat, n: nat)
    requires Grows(gathers, room, k) && n <= room
    ensures gathers(n, 0)
  {
    if n > 0 {
      LineUp(gathers, room, k, n - 1);
      assert Among(0, n - 1) && Among(1, n);
    }
  }

  /** Then g more are let in before any of them enters. */
  lemma {:induction false} PressIn(gathers: (nat, nat) -> bool, room: nat, k: nat, g: nat)
    requires Grows(gathers, room, k) && g <= k + 1
    ensures gathers(room + g, g)
  {
    if g == 0 {
      LineUp(gathers, room, k, room);
    } else {
      PressIn(gathers, room, k, g - 1);
      assert Among(g - 1, room + g - 1);
    }
  }

  /** And then all but g of these enter. */
  lemma {:induction false} GoIn(gathers: (nat, nat) -> bool, room: nat, k: nat, g: nat)
    requires Grows(gathers, room, k) && g <= k + 1
    ensures gathers(room + k + 1, g)
    decreases k + 1 - g
  {
    if g == k + 1 {
      PressIn(gathers, room, k, g);
    } else {
      GoIn(gathers, room, k, g + 1);
      assert Among(g + 1, room + k + 1);
    }
  }

  lemma CrowdsGrow(s: Settings, k: nat) returns (gathers: (nat, nat) -> bool)
    requires s.Effective()
    ensures Grows(gathers, s.concurrent + s.rejectLimit, k)
    ensures forall n: nat, g: nat {:trigger Among(g, n)} :: Among(g, n) && gathers(n, g) ==> Gathers(s, k, n, g)
  {
    gathers := (n: nat, g: nat) => Gathers(s, k, n, g);
    NoCrowd(s, k);
    forall n: nat, g: nat | Gathers(s, k, n, g) && g <= n && g <= k && n - g <= s.concurrent + s.rejectLimit
      ensures Gathers(s, k, n + 1, g + 1)
    {
      OneArrives(s, k, n, g);
    }
    forall n: nat, g: nat | Gathers(s, k, n, g) && 0 < g ensures Gathers(s, k, n, g - 1) {
      OneEnters(s, k, n, g);
    }
  }

  lemma AllIn(s: Settings, k: nat)
    requires s.Effective()
    ensures Gathers(s, k, s.concurrent + s.rejectLimit + k + 1, 0)
  {
    var gathers := CrowdsGrow(s, k);
    GoIn(gathers, s.concurrent + s.rejectLimit, k, 0);
    assert Among(0, s.concurrent + s.rejectLimit + k + 1);
  }

  /** The overrun is attained, with a clock that only advances. */
  lemma WaitingAttained(s: Settings, k: nat) returns (events: seq<Event>)
    requires s.Effective()
    ensures IsRun(s, events) && ClockAdvances(events) && GapAtMost(s, events, k)
    ensures After(s, events).sleeping == 0 && After(s, events).queued == s.rejectLimit + 1 + k
  {
    AllIn(s, k);
    assert Gathers(s, k, s.concurrent + s.rejectLimit + k + 1, 0);
    var last;
    events, last :| CrowdRun(s, events, k, last, s.concurrent + s.rejectLimit + k + 1, 0);
  }

  /**
   * Every run in which at most k stand between the lock sections when a request arrives keeps this many waiting or
   * fewer.
   */
  ghost predicate BoundsWaiting(s: Settings, k: nat, bound: int) {
    forall events :: IsRun(s, events) && GapAtMost(s, events, k) ==>
        After(s, events).sleeping + After(s, events).queued <= bound
  }

  /** How far exactly the reject limit can be overrun: by one, and by as many as stood between the lock sections. */
  lemma OverrunIsExact(s: Settings, k: nat, bound: int)
    requires s.Effective()
    ensures BoundsWaiting(s, k, bound) <==> s.rejectLimit + 1 + k <= bound
  {
    forall events | IsRun(s, events) && GapAtMost(s, events, k)
      ensures After(s, events).sleeping + After(s, events).queued <= s.rejectLimit + 1 + k
    {
      WaitingBound(s, events, k);
    }
    var worst := WaitingAttained(s, k);
    assert IsRun(s, worst) && GapAtMost(s, worst, k);
  }

  /**
   * The check at admission is no bound on how many wait: requests that were let in are counted nowhere
   * until they reach the second lock section. Under every configuration, and with a clock that only
   * advances, more can wait than any given number.
   */
  lemma WaitingIsUnbounded(s: Settings, bound: nat) returns (events: seq<Event>)
    requires s.Effective()
    ensures IsRun(s, events) && ClockAdvances(events)
    ensures After(s, events).queued > bound
  {
    events := WaitingAttained(s, bound);
  }

  // ---------------------------------------------------------------- the sliding window

  lemma {:induction false} RecentAppend(times: seq<int>, t: int, cutoff: int)
    ensures Recent(times + [t], cutoff) == Recent(times, cutoff) + (if t > cutoff then [t] else [])
  {
    if times == [] {
      assert times + [t] == [t] && [t][1..] == [];
    } else {
      assert (times + [t])[1..] == times[1..] + [t];
      RecentAppend(times[1..], t, cutoff);
    }
  }

  /** Pruning twice is pruning at the later cutoff. */
  lemma {:induction false} RecentTwice(times: seq<int>, early: int, late: int)
    requires early <= late
    ensures Recent(Recent(times, early), late) == Recent(times, late)
  {
    if times != [] {
      RecentTwice(times[1..], early, late);
      if times[0] > early {
        assert ([times[0]] + Recent(times[1..], early))[1..] == Recent(times[1..], early);
      }
    }
  }

  lemma {:induction false} RecentFewer(times: seq<int>, a: int, b: int)
    ensures |Recent(Recent(times, a), b)| <= |Recent(times, b)|
  {
    if times != [] {
      RecentFewer(times[1..], a, b);
      if times[0] > a {
        assert ([times[0]] + Recent(times[1..], a))[1..] == Recent(times[1..], a);
      }
    }
  }

  /** No arrival so far read a later clock than this. */
  ghost predicate OnTime(events: seq<Event>, now: int) {
    forall i :: 0 <= i < |events| && events[i].Arrive? ==> events[i].now <= now
  }

  /** The readings of the clock do not decrease in the order the lock is taken. */
  ghost predicate ClockAdvances(events: seq<Event>) {
    forall i, j :: 0 <= i < j < |events| && events[i].Arrive? && events[j].Arrive? ==> events[i].now <= events[j].now
  }

  lemma OnlyArrivalsCount(s: Settings, h: Host, e: Event)
    ensures !e.Arrive? ==> Step(s, h, e).requestTimes == h.requestTimes && Step(s, h, e).admitted == h.admitted
  {}

  lemma {:induction false} RecentMembers(times: seq<int>, cutoff: int)
    ensures forall t :: t in Recent(times, cutoff) <==> t in times && t > cutoff
  {
    if times != [] {
      RecentMembers(times[1..], cutoff);
      assert times == [times[0]] + times[1..];
    }
  }

  /** Some time lies after the cutoff and yet is pruned at this later one. */
  ghost predicate Loses(times: seq<int>, cutoff: int, later: int) {
    exists t :: t in times && cutoff < t <= later
  }

  lemma LosesNext(times: seq<int>, cutoff: int, later: int)
    requires times != []
    ensures Loses(times, cutoff, later) <==> cutoff < times[0] <= later || Loses(times[1..], cutoff, later)
  {
    assert times == [times[0]] + times[1..];
    if t :| t in times[1..] && cutoff < t <= later {
      assert t in times;
    }
    if cutoff < times[0] <= later {
      assert times[0] in times;
    }
    if t :| t in times && cutoff < t <= later {
      assert t == times[0] || t in times[1..];
    }
  }

  /** Pruning first loses nothing of what lies after a cutoff exactly if no time lies between the two. */
  lemma {:induction false} RecentLoses(times: seq<int>, cutoff: int, later: int)
    ensures if Loses(times, cutoff, later) then |Recent(Recent(times, later), cutoff)| < |Recent(times, cutoff)|
            else Recent(Recent(times, later), cutoff) == Recent(times, cutoff)
  {
    if times != [] {
      LosesNext(times, cutoff, later);
      RecentLoses(times[1..], cutoff, later);
      RecentFewer(times[1..], later, cutoff);
      if times[0] > later {
        assert ([times[0]] + Recent(times[1..], later))[1..] == Recent(times[1..], later);
      }
    }
  }

  /**
   * An arrival after the cutoff has been forgotten: some later arrival, let in or not, read the clock a whole
   * window or more after it, while the cutoff has yet to reach it. This is about the readings alone.
   */
  ghost predicate Forgotten(s: Settings, events: seq<Event>, cutoff: int) {
    |events| > 0 &&
    var before, e := events[..|events| - 1], events[|events| - 1];
    Forgotten(s, before, cutoff) || (e.Arrive? && Loses(LetIn(s, before), cutoff, e.now - s.windowSize))
  }

  /** The one list is a record of the other: a true one, or one that has lost something. */
  ghost predicate Records(a: seq<int>, b: seq<int>, lost: bool) {
    if lost then |a| < |b| else a == b
  }

  /**
   * The pruned list holds exactly the admitted arrivals of the whole history that lie after the cutoff if
   * none of them has been forgotten, and strictly fewer otherwise; for every run, every clock, every cutoff.
   */
  lemma {:induction false} WindowIsExact(s: Settings, events: seq<Event>, cutoff: int)
    ensures Records(Recent(After(s, events).requestTimes, cutoff), Recent(LetIn(s, events), cutoff),
            Forgotten(s, events, cutoff))
  {
    AdmittedAreLetIn(s, events);
    if |events| > 0 {
      var before, e := events[..|events| - 1], events[|events| - 1];
      var h := After(s, before);
      WindowIsExact(s, before, cutoff);
      AdmittedAreLetIn(s, before);
      if e.Arrive? {
        ArrivalPrunes(s, h, e, cutoff, Forgotten(s, before, cutoff));
      } else {
        OnlyArrivalsCount(s, h, e);
      }
    }
  }

  lemma PruneRecords(times: seq<int>, all: seq<int>, early: int, cutoff: int, lost: bool)
    requires Records(Recent(times, cutoff), Recent(all, cutoff), lost)
    ensures Records(Recent(Recent(times, early), cutoff), Recent(all, cutoff), lost || Loses(all, cutoff, early))
  {
    if lost {
      RecentFewer(times, early, cutoff);
    } else {
      SameLosses(times, all, early, cutoff);
      RecentLoses(times, cutoff, early);
    }
  }

  lemma SameLosses(times: seq<int>, all: seq<int>, early: int, cutoff: int)
    requires Recent(times, cutoff) == Recent(all, cutoff)
    ensures Loses(times, cutoff, early) <==> Loses(all, cutoff, early)
  {
    RecentMembers(times, cutoff);
    RecentMembers(all, cutoff);
    forall t ensures t in all && cutoff < t <= early <==> t in times && cutoff < t <= early {
      assert t in Recent(all, cutoff) <==> t in Recent(times, cutoff);
    }
  }

  lemma AppendRecords(times: seq<int>, all: seq<int>, t: int, cutoff: int, lost: bool)
    requires Records(Recent(times, cutoff), Recent(all, cutoff), lost)
    ensures Records(Recent(times + [t], cutoff), Recent(all + [t], cutoff), lost)
  {
    RecentAppend(times, t, cutoff);
    RecentAppend(all, t, cutoff);
  }

  lemma ArrivalPrunes(s: Settings, h: Host, e: Event, cutoff: int, lost: bool)
    requires e.Arrive? && Records(Recent(h.requestTimes, cutoff), Recent(h.admitted, cutoff), lost)
    ensures var h' := Step(s, h, e);
            Records(Recent(h'.requestTimes, cutoff), Recent(h'.admitted, cutoff),
                    lost || Loses(h.admitted, cutoff, e.now - s.windowSize))
  {
    var early := e.now - s.windowSize;
    PruneRecords(h.requestTimes, h.admitted, early, cutoff, lost);
    AppendRecords(Recent(h.requestTimes, early), h.admitted, e.now, cutoff, lost || Loses(h.admitted, cutoff, early));
  }

  /** Whatever the clock does, the recorded arrivals never outnumber the real ones: nobody sleeps for nothing. */
  lemma WindowNeverOvercounts(s: Settings, events: seq<Event>, cutoff: int)
    ensures |Recent(After(s, events).requestTimes, cutoff)| <= |Recent(LetIn(s, events), cutoff)|
  {
    WindowIsExact(s, events, cutoff);
  }

  /** Readings may be out of order: as long as none is later than now, nothing inside the window has been forgotten. */
  lemma {:induction false} OnTimeForgetsNothing(s: Settings, events: seq<Event>, now: int)
    requires OnTime(events, now)
    ensures !Forgotten(s, events, now - s.windowSize)
  {
    if |events| > 0 {
      var before, e := events[..|events| - 1], events[|events| - 1];
      assert forall i :: 0 <= i < |before| ==> before[i] == events[i];
      OnTimeForgetsNothing(s, before, now);
      assert e.Arrive? ==> events[|events| - 1].now <= now;
    }
  }

  lemma SleepDecision(s: Settings, h: Host, r: Request, now: int)
    requires h.sleeping + h.queued <= s.rejectLimit
    ensures InPhase(Step(s, h, Arrive(r, now)), r, Sleeping) <==>
            Exceeds(Recent(h.requestTimes, now - s.windowSize), s.sleepLimit)
  {}

  /** One more arrival makes these more than the limit. */
  predicate Exceeds(times: seq<int>, limit: int) {
    |times| + 1 > limit
  }

  /**
   * A request that is let in sleeps only if the admitted arrivals of the whole history that lie inside the
   * window, itself included, exceed the sleep limit, and if none of these has been forgotten it sleeps
   * exactly then.
   */
  lemma SleepsByFullHistory(s: Settings, events: seq<Event>, r: Request, now: int)
    requires After(s, events).sleeping + After(s, events).queued <= s.rejectLimit
    ensures var all := Recent(LetIn(s, events), now - s.windowSize);
            Follows(InPhase(Step(s, After(s, events), Arrive(r, now)), r, Sleeping), Exceeds(all, s.sleepLimit),
                    Forgotten(s, events, now - s.windowSize))
  {
    WindowIsExact(s, events, now - s.windowSize);
    SleepsByRecord(s, After(s, events), r, now, Recent(LetIn(s, events), now - s.windowSize),
        Forgotten(s, events, now - s.windowSize));
  }

  /** A decision that is never made without cause, and where nothing is lost whenever there is cause. */
  predicate Follows(decision: bool, cause: bool, lost: bool) {
    (decision ==> cause) && (!lost && cause ==> decision)
  }

  lemma SleepsByRecord(s: Settings, h: Host, r: Request, now: int, all: seq<int>, lost: bool)
    requires h.sleeping + h.queued <= s.rejectLimit && Records(Recent(h.requestTimes, now - s.windowSize), all, lost)
    ensures Follows(InPhase(Step(s, h, Arrive(r, now)), r, Sleeping), Exceeds(all, s.sleepLimit), lost)
  {
    SleepDecision(s, h, r, now);
  }

  ghost predicate ExceedAlike(a: seq<int>, b: seq<int>) {
    forall limit: int :: Exceeds(a, limit) <==> Exceeds(b, limit)
  }

  /**
   * The pruned list and the full history decide alike, whatever the limit they are held against, exactly if
   * nothing inside the window has been forgotten.
   */
  lemma ForgettingDecides(s: Settings, events: seq<Event>, now: int)
    ensures ExceedAlike(Recent(After(s, events).requestTimes, now - s.windowSize),
            Recent(LetIn(s, events), now - s.windowSize)) <==>
            !Forgotten(s, events, now - s.windowSize)
  {
    WindowIsExact(s, events, now - s.windowSize);
    DecideBy(Recent(After(s, events).requestTimes, now - s.windowSize), Recent(LetIn(s, events), now - s.windowSize),
        Forgotten(s, events, now - s.windowSize));
  }

  lemma DecideBy(a: seq<int>, b: seq<int>, lost: bool)
    requires Records(a, b, lost)
    ensures ExceedAlike(a, b) <==> !lost
  {
    assert !Exceeds(a, |a| + 1) && !Exceeds(b, |b| + 1);
    assert Exceeds(a, |a|) && Exceeds(b, |b|);
  }

  /** Two requests that find nobody waiting, the second a long time after the first. */
  lemma TwoArrivals(s: Settings)
    requires s == Settings(1000, 2, 500, 50, 3)
    ensures var events := [Arrive(0, 0)] + [Arrive(1, 5000)];
            IsRun(s, events) &&
            After(s, events) == Fresh().(requestTimes := [5000], admitted := [0] + [5000],
                phase := map[0 := Gap, 1 := Gap])
  {
    var first, second := Arrive(0, 0), Arrive(1, 5000);
    assert After(s, []) == Fresh();
    Extend(s, [], first);
    assert [] + [first] == [first];
    var h := Fresh().(requestTimes := [0], admitted := [0], phase := map[0 := Gap]);
    assert After(s, [first]) == h;
    assert Recent([0], 4000) == [] by { assert [0][1..] == []; }
    Extend(s, [first], second);
    assert map[0 := Gap][1 := Gap] == map[0 := Gap, 1 := Gap];
  }

  /**
   * The clock is read before the lock is taken. When a reading is older than one before it, an arrival of its
   * window may be gone: here a request passes that the full history would have put to sleep.
   */
  lemma BackwardClockForgets() returns (s: Settings, events: seq<Event>, r: Request, now: int)
    ensures s.Effective() && IsRun(s, events) && Enabled(After(s, events), Arrive(r, now)) &&
            Forgotten(s, events, now - s.windowSize)
    ensures InPhase(Step(s, After(s, events), Arrive(r, now)), r, Gap) &&
            Exceeds(Recent(LetIn(s, events), now - s.windowSize), s.sleepLimit)
  {
    s, r, now := Settings(1000, 2, 500, 50, 3), 2, 500;
    events := [Arrive(0, 0)] + [Arrive(1, 5000)];
    TwoArrivals(s);
    RecentAppend([0], 5000, -500);
    assert Recent([0], -500) == [0] by { assert [0][1..] == []; }
    assert Recent([5000], -500) == [5000] by { assert [5000][1..] == []; }
    AdmittedAreLetIn(s, events);
    WindowIsExact(s, events, -500);
  }

  // ---------------------------------------------------------------- the lock sections

  datatype Verdict = LimitExceeded | MustSleep | MayEnter

  class HostLimiter {
    const settings: Settings
    var requestTimes: seq<int>
    var sleeping: int
    var queued: int
    var processing: int
    var waiters: seq<Request>
    var lastUsed: int
    var closed: set<Request>   // the channels that have been closed
    ghost var host: Host

    /** The fields are those of the protocol's state. */
    ghost predicate Tied()
      reads this
    {
      && host.requestTimes == requestTimes && host.sleeping == sleeping && host.queued == queued
      && host.processing == processing && host.waiters == waiters && host.closed == closed
    }

    ghost predicate Valid()
      reads this
    {
      Tied() && Inv(settings, host)
    }

    constructor (settings: Settings, now: int)
      requires 0 < settings.concurrent
      ensures Valid() && host == Fresh() && this.settings == settings && lastUsed == now
    {
      this.settings, lastUsed := settings, now;
      requestTimes, sleeping, queued, processing, waiters, closed := [], 0, 0, 0, [], {};
      host := Fresh();
      new;
      FreshKeeps(settings);
    }

    /** Drops arrival times that have fallen out of the window, keeping the others in order. */
    method Prune(cutoff: int)
      modifies this`requestTimes
      ensures requestTimes == Recent(old(requestTimes), cutoff)
    {
      var kept := [];
      assert requestTimes[..|requestTimes|] == requestTimes;
      for i := 0 to |requestTimes|
        invariant requestTimes == old(requestTimes)
        invariant kept == Recent(requestTimes[..i], cutoff)
      {
        var t := requestTimes[i];
        assert requestTimes[..i + 1] == requestTimes[..i] + [t];
        RecentAppend(requestTimes[..i], t, cutoff);
        if t > cutoff {
          kept := kept + [t];
        }
      }
      requestTimes := kept;
    }

    /** First lock section of Acquire. */
    method Admit(r: Request, now: int) returns (v: Verdict)
      requires Valid() && Enabled(host, Arrive(r, now))
      modifies this
      ensures Valid() && host == Step(settings, old(host), Arrive(r, now))
      ensures v == match host.phase[r] case Refused => LimitExceeded case Sleeping => MustSleep case _ => MayEnter
      ensures lastUsed == now
    {
      ArriveKeeps(settings, host, r, now);
      host := Step(settings, host, Arrive(r, now));
      lastUsed := now;
      Prune(now - settings.windowSize);
      // Reject before recording the request, so a rejected one does not count towards the window.
      if sleeping + queued > settings.rejectLimit {
        return LimitExceeded;
      }
      requestTimes := requestTimes + [now];
      if |requestTimes| > settings.sleepLimit {
        sleeping := sleeping + 1;
        return MustSleep;
      }
      return MayEnter;
    }

    /** The lock section after the sleep, however it ended. */
    method WakeUp(r: Request, cancelled: bool) returns (proceeds: bool)
      requires Valid() && Enabled(host, Wake(r, cancelled))
      modifies this
      ensures Valid() && host == Step(settings, old(host), Wake(r, cancelled)) && lastUsed == old(lastUsed)
      ensures (proceeds <==> !cancelled) && (proceeds <==> InPhase(host, r, Gap))
    {
      WakeKeeps(settings, host, r, cancelled);
      host := Step(settings, host, Wake(r, cancelled));
      sleeping := sleeping - 1;
      proceeds := !cancelled;
    }

    /** Second lock section: takes a slot or joins the queue. */
    method TakeOrQueue(r: Request) returns (running: bool)
      requires Valid() && Enabled(host, Enter(r))
      modifies this
      ensures Valid() && host == Step(settings, old(host), Enter(r)) && lastUsed == old(lastUsed)
      ensures running <==> InPhase(host, r, Running)
    {
      EnterKeeps(settings, host, r);
      host := Step(settings, host, Enter(r));
      if processing < settings.concurrent {
        processing := processing + 1;
        return true;
      }
      waiters := waiters + [r];
      queued := queued + 1;
      return false;
    }

    /** Frees a slot, handing it to the next waiter so that no later arrival can take it. */
    method ReleaseSlot(r: Request)
      requires Valid() && InPhase(host, r, Running)
      modifies this
      ensures Valid() && host == Step(settings, old(host), Release(r)) && lastUsed == old(lastUsed)
    {
      HandOffKeeps(settings, host, r, Finished);
      host := Step(settings, host, Release(r));
      if |waiters| > 0 {
        var next := waiters[0];
        waiters := waiters[1..];
        queued := queued - 1;
        closed := closed + {next};
        return;
      }
      processing := processing - 1;
    }

    /** Cleanup's test: not used since the cutoff, and nobody counted. */
    predicate Idle(cutoff: int)
      reads this
    {
      lastUsed < cutoff && processing == 0 && queued == 0 && sleeping == 0
    }

    /** That nobody is counted is not that nobody is under way: requests may stand between the lock sections. */
    lemma IdleMeansAway(cutoff: int)
      requires Valid()
      ensures Idle(cutoff) <==> lastUsed < cutoff && AllAway(host)
    {
      CountersTell(settings, host);
    }

    method Withdraw(i: nat)
      requires Valid() && i < |waiters| && waiters[i] !in waiters[..i] && Enabled(host, Abandon(waiters[i]))
      modifies this
      ensures Valid() && host == Step(settings, old(host), Abandon(old(waiters[i]))) && lastUsed == old(lastUsed)
    {
      ghost var wait := waiters[i];
      AbandonKeeps(settings, host, wait);
      host := Step(settings, host, Abandon(wait));
      assert waiters == waiters[..i] + ([wait] + waiters[i + 1..]);
      DropAt(waiters[..i], wait, waiters[i + 1..]);
      waiters := waiters[..i] + waiters[i + 1..];
      queued := queued - 1;
    }

    /** The slot was handed over between the cancellation and this lock, so it must be given back. */
    method GiveBack(wait: Request)
      requires Valid() && Enabled(host, Abandon(wait)) && wait !in waiters
      modifies this
      ensures Valid() && host == Step(settings, old(host), Abandon(wait)) && lastUsed == old(lastUsed)
    {
      AbandonKeeps(settings, host, wait);
      host := Step(settings, host, Abandon(wait));
      if wait in closed {
        if |waiters| > 0 {
          var next := waiters[0];
          waiters := waiters[1..];
          queued := queued - 1;
          closed := closed + {next};
        } else {
          processing := processing - 1;
        }
      } else {
        // the default arm of the select
        assert false;
      }
    }

    /** Removes a waiter whose request was cancelled, or gives back the slot it was handed meanwhile. */
    method AbandonWait(wait: Request)
      requires Valid() && Enabled(host, Abandon(wait))
      modifies this
      ensures Valid() && host == Step(settings, old(host), Abandon(wait)) && lastUsed == old(lastUsed)
    {
      for i := 0 to |waiters|
        invariant wait !in waiters[..i]
      {
        if waiters[i] == wait {
          Withdraw(i);
          return;
        }
      }
      assert waiters[..|waiters|] == waiters;
      GiveBack(wait);
    }
  }

  ghost predicate AllSound(hosts: map<string, HostLimiter>, settings: Settings)
    reads hosts.Values
  {
    forall name :: name in hosts ==> hosts[name].Valid() && hosts[name].settings == settings
  }

  /** Dropping some of the objects leaves the others as they are. */
  lemma FewerSound(hosts: map<string, HostLimiter>, settings: Settings, names: set<string>)
    requires AllSound(hosts, settings)
    ensures AllSound(hosts - names, settings)
  {}

  /** The limiters of all origins. A request keeps the object it was given, whatever becomes of the map. */
  class Limiter {
    const settings: Settings
    var hosts: map<string, HostLimiter>

    constructor (settings: Settings)
      requires settings.Validated()
      ensures Valid() && this.settings == settings.WithDefaults() && hosts == map[]
    {
      this.settings, hosts := settings.WithDefaults(), map[];
    }

    ghost predicate Valid()
      reads this, hosts.Values
    {
      settings.Effective() && AllSound(hosts, settings)
    }

    /** The object of an origin, made when there is none. */
    method HostFor(name: string, now: int) returns (h: HostLimiter)
      requires Valid()
      modifies this`hosts
      ensures Valid() && name in hosts && hosts[name] == h && h.Valid() && h.settings == settings
      ensures if name in old(hosts) then hosts == old(hosts) && h == old(hosts)[name]
              else fresh(h) && hosts == old(hosts)[name := h] && h.host == Fresh() && h.lastUsed == now
    {
      if name in hosts {
        return hosts[name];
      }
      h := new HostLimiter(settings, now);
      hosts := hosts[name := h];
    }

    /** Discards exactly the idle objects, says how many, and touches none. */
    method Cleanup(now: int, maxIdle: int) returns (removed: nat)
      modifies this`hosts
      ensures hosts == old(hosts) - old(IdleNames(hosts, now - maxIdle)) && removed == |old(hosts)| - |hosts|
    {
      var idle := Sweep(hosts, now - maxIdle);
      FewerHosts(hosts, idle);
      removed := |idle|;
      hosts := hosts - idle;
    }
  }

  ghost function IdleNames(hosts: map<string, HostLimiter>, cutoff: int): set<string>
    reads hosts.Values
  {
    set name | name in hosts && hosts[name].Idle(cutoff)
  }

  /** The names of the objects that are idle. */
  method Sweep(hosts: map<string, HostLimiter>, cutoff: int) returns (idle: set<string>)
    ensures idle == IdleNames(hosts, cutoff) && idle <= hosts.Keys
  {
    var todo := hosts.Keys;
    idle := {};
    while todo != {}
      invariant todo <= hosts.Keys && idle == IdleNames(hosts, cutoff) - todo
    {
      var name :| name in todo;
      todo := todo - {name};
      if hosts[name].Idle(cutoff) {
        idle := idle + {name};
      }
    }
  }

  lemma FewerHosts<T>(m: map<string, T>, names: set<string>)
    requires names <= m.Keys
    ensures |m - names| == |m| - |names|
  {
    assert (m - names).Keys == m.Keys - names;
  }

  lemma AloneInGap(s: Settings, r: Request, now: int)
    requires s.Effective()
    ensures var h := Step(s, Fresh(), Arrive(r, now));
            Enabled(h, Enter(r)) && AllAway(h) && InPhase(Step(s, h, Enter(r)), r, Running)
  {
    assert Recent([], now - s.windowSize) == [];
  }

  /** One request has been let in and stands between its lock sections; nobody else has been here. */
  ghost predicate Alone(h: HostLimiter, r: Request, now: int)
    reads h
  {
    h.Tied() && h.settings.Effective() && h.host == Step(h.settings, Fresh(), Arrive(r, now)) && h.lastUsed == now
  }

  method ArriveFirst(h: HostLimiter, r: Request, now: int)
    requires h.Valid() && h.host == Fresh() && h.settings.Effective()
    modifies h
    ensures Alone(h, r, now) && forall cutoff :: now < cutoff ==> h.Idle(cutoff)
  {
    var v := h.Admit(r, now);
    AloneInGap(h.settings, r, now);
    forall cutoff | now < cutoff ensures h.Idle(cutoff) {
      h.IdleMeansAway(cutoff);
    }
  }

  method EnterAlone(h: HostLimiter, r: Request, now: int)
    requires Alone(h, r, now)
    modifies h
    ensures InPhase(h.host, r, Running)
  {
    AloneInGap(h.settings, r, now);
    FreshKeeps(h.settings);
    ArriveKeeps(h.settings, Fresh(), r, now);
    var running := h.TakeOrQueue(r);
  }

  /** The first request of an origin. */
  method FirstOfOrigin(limiter: Limiter, name: string, r: Request, now: int) returns (h: HostLimiter)
    requires limiter.settings.Effective() && limiter.hosts == map[]
    modifies limiter`hosts
    ensures limiter.hosts == map[name := h] && fresh(h) && h.settings == limiter.settings
    ensures Alone(h, r, now) && forall cutoff :: now < cutoff ==> h.Idle(cutoff)
  {
    h := limiter.HostFor(name, now);
    ArriveFirst(h, r, now);
  }

  /**
   * What the idle test overlooks: an object is dropped while a request stands between its lock sections, the
   * origin is given another, and a request runs on each, where Concurrent may allow but one.
   */
  method CleanupCanSplit(s: Settings) returns (limiter: Limiter, first: HostLimiter, second: HostLimiter)
    requires s.Validated()
    ensures limiter.settings == s.WithDefaults() && limiter.hosts == map["origin" := second]
    ensures first != second && first.settings == second.settings == limiter.settings
    ensures InPhase(first.host, 0, Running) && InPhase(second.host, 1, Running)
  {
    limiter := new Limiter(s);
    first := FirstOfOrigin(limiter, "origin", 0, 0);
    var removed := limiter.Cleanup(5000, 1000);
    assert limiter.hosts == map[];
    second := FirstOfOrigin(limiter, "origin", 1, 5000);
    EnterAlone(first, 0, 0);
    EnterAlone(second, 1, 5000);
  }

  /** What Acquire returns to be called when the request is done: frees its slot, however often it is called. */
  class ReleaseFunc {
    const limiter: HostLimiter
    const request: Request
    var once: bool   // sync.Once has fired

    constructor (limiter: HostLimiter, request: Request)
      requires limiter.Valid() && InPhase(limiter.host, request, Running)
      ensures Valid() && this.limiter == limiter && this.request == request
    {
      this.limiter, this.request, once := limiter, request, false;
    }

    ghost predicate Valid()
      reads this, limiter
    {
      limiter.Valid() && InPhase(limiter.host, request, if once then Finished else Running)
    }

    /** The first call frees the slot and every later one changes nothing. */
    method Call()
      requires Valid()
      modifies this, limiter
      ensures Valid() && once
      ensures limiter.host == if old(once) then old(limiter.host)
              else Step(limiter.settings, old(limiter.host), Release(request))
    {
      if !once {
        once := true;
        limiter.ReleaseSlot(request);
      }
    }
  }
}
