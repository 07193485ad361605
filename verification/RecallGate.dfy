/**
 The plugin's recall gate (plugin/index.ts): automated recalls with the same key share
 one request while it is in flight, and at most ten requests start per session. Calls,
 settlements and session ends interleave freely.
 */
module RecallGate {
  const MAX_RECALLS_PER_TURN: nat := 10

  type RequestId = nat

  /** `requests[id]` is the key request `id` was started under; ids are start order. */
  datatype Gate = Gate(count: nat, inflight: map<string, RequestId>, requests: seq<string>, settled: set<RequestId>)

  datatype Answer = Empty | Shared(id: RequestId) | Started(id: RequestId)

  const INIT := Gate(0, map[], [], {})

  // ---- the handlers ----

  function Call(g: Gate, key: string): (Gate, Answer) {
    if g.count >= MAX_RECALLS_PER_TURN then (g, Empty)
    else if key in g.inflight then (g, Shared(g.inflight[key]))
    else
      var id := |g.requests|;
      (g.(count := g.count + 1, inflight := g.inflight[key := id], requests := g.requests + [key]), Started(id))
  }

  /** A request settles once; its `finally` evicts whatever its key now maps to. */
  function Settle(g: Gate, id: RequestId): Gate {
    if id < |g.requests| && id !in g.settled
    then g.(inflight := g.inflight - {g.requests[id]}, settled := g.settled + {id})
    else g
  }

  function SessionEnd(g: Gate): Gate { g.(count := 0, inflight := map[]) }

  class RecallPlugin {
    var count: nat
    var inflight: map<string, RequestId>
    ghost var requests: seq<string>
    ghost var settled: set<RequestId>

    ghost function View(): Gate
      reads this
    {
      Gate(count, inflight, requests, settled)
    }

    constructor ()
      ensures View() == INIT
    {
      count, inflight, requests, settled := 0, map[], [], {};
    }

    /** `next` is the promise of the request that `run` would start. */
    method BoundedRecall(key: string, next: RequestId) returns (answer: Answer)
      requires next == |requests|
      modifies this
      ensures (View(), answer) == old(Call(View(), key))
    {
      if count >= MAX_RECALLS_PER_TURN {
        return Empty;
      }
      if key in inflight {
        return Shared(inflight[key]);
      }
      count := count + 1;
      requests := requests + [key];
      inflight := inflight[key := next];
      return Started(next);
    }

    method OnSettled(id: RequestId, key: string)
      requires id < |requests| && requests[id] == key && id !in settled
      modifies this
      ensures View() == old(Settle(View(), id))
    {
      inflight := inflight - {key};
      settled := settled + {id};
    }

    method OnSessionEnd()
      modifies this
      ensures View() == old(SessionEnd(View()))
    {
      count := 0;
      inflight := map[];
    }
  }

  // ---- runs ----

  datatype Event = Called(key: string) | Settled(id: RequestId) | Ended

  function Step(g: Gate, e: Event): Gate {
    match e
    case Called(key) => Call(g, key).0
    case Settled(id) => Settle(g, id)
    case Ended => SessionEnd(g)
  }

  function Run(events: seq<Event>): Gate {
    if events == [] then INIT else Step(Run(events[..|events| - 1]), events[|events| - 1])
  }

  /** Where the current session began: just after the last session end. */
  function SessionStart(events: seq<Event>): (i: nat)
    ensures i <= |events| && (forall k :: i <= k < |events| ==> !events[k].Ended?)
  {
    if events == [] then 0
    else if events[|events| - 1].Ended? then |events|
    else SessionStart(events[..|events| - 1])
  }

  /** The counter counts the requests started since the last session end, so no session
      starts more than ten. */
  lemma {:induction false} AtMostTenPerSession(events: seq<Event>)
    ensures Run(events).count == |Run(events).requests| - |Run(events[..SessionStart(events)]).requests|
    ensures Run(events).count <= 10
  {
    if events == [] {
      assert events[..0] == [];
    } else if events[|events| - 1].Ended? {
      assert events[..|events|] == events;
    } else {
      var front := events[..|events| - 1];
      AtMostTenPerSession(front);
      assert events[..SessionStart(events)] == front[..SessionStart(front)];
    }
  }

  /** Shared promises belong to the key they are stored under, and are not settled. */
  ghost predicate KeysMatch(g: Gate) {
    forall k :: k in g.inflight ==> Unsettled(g, g.inflight[k]) && g.requests[g.inflight[k]] == k
  }

  lemma {:induction false} KeysMatchRun(events: seq<Event>)
    ensures KeysMatch(Run(events))
  {
    if events != [] {
      KeysMatchRun(events[..|events| - 1]);
      SettledKnownRun(events[..|events| - 1]);
    }
  }

  /** At any moment, a caller gets the empty result or a request started under its own key
      that is still in flight. */
  lemma OwnKeyOnly(events: seq<Event>, key: string)
    ensures var (g, answer) := Call(Run(events), key);
            match answer
            case Empty => Run(events).count >= 10 && g == Run(events)
            case Shared(id) => Unsettled(g, id) && g.requests[id] == key && g == Run(events)
            case Started(id) => Unsettled(g, id) && g.requests[id] == key && id == |Run(events).requests|
  {
    KeysMatchRun(events);
    SettledKnownRun(events);
  }

  // ---- de-duplication ----

  predicate Unsettled(g: Gate, id: RequestId) { id < |g.requests| && id !in g.settled }

  /** At most one request per key is in flight. */
  ghost predicate OnePerKey(g: Gate) {
    forall i: RequestId, j: RequestId :: Unsettled(g, i) && Unsettled(g, j) && g.requests[i] == g.requests[j] ==> i == j
  }

  /** Every request in flight is the one its key is registered for. */
  ghost predicate AllRegistered(g: Gate) {
    forall i: RequestId :: Unsettled(g, i) ==> g.requests[i] in g.inflight && g.inflight[g.requests[i]] == i
  }

  ghost predicate Idle(g: Gate) { forall i: RequestId :: !Unsettled(g, i) }

  /** No request outlives a session end. */
  ghost predicate NoneOutlives(events: seq<Event>) {
    forall k :: 0 <= k < |events| && events[k].Ended? ==> Idle(Run(events[..k]))
  }

  lemma RegisteredCall(g: Gate, key: string)
    requires AllRegistered(g)
    ensures AllRegistered(Call(g, key).0)
  {
    var next := Call(g, key).0;
    forall i: RequestId | Unsettled(next, i) ensures next.requests[i] in next.inflight && next.inflight[next.requests[i]] == i {
      if i < |g.requests| {
        assert Unsettled(g, i) && next.requests[i] == g.requests[i];
      }
    }
  }

  lemma RegisteredSettle(g: Gate, id: RequestId)
    requires AllRegistered(g)
    ensures AllRegistered(Settle(g, id))
  {
    var next := Settle(g, id);
    forall i: RequestId | Unsettled(next, i) ensures next.requests[i] in next.inflight && next.inflight[next.requests[i]] == i {
      assert Unsettled(g, i);
      if Unsettled(g, id) && g.requests[i] == g.requests[id] {
        assert g.inflight[g.requests[id]] == id;
      }
    }
  }

  /** If no request outlives a session end, every request in flight is registered, so there
      is at most one per key. */
  lemma {:induction false} Deduplicated(events: seq<Event>)
    requires NoneOutlives(events)
    ensures AllRegistered(Run(events)) && OnePerKey(Run(events))
  {
    hide AllRegistered;
    if events == [] {
      RegisteredInit();
    } else {
      var front := events[..|events| - 1];
      assert forall k :: 0 <= k < |front| ==> front[..k] == events[..k];
      Deduplicated(front);
      match events[|events| - 1] {
        case Called(key) => RegisteredCall(Run(front), key);
        case Settled(id) => RegisteredSettle(Run(front), id);
        case Ended => assert Idle(Run(events[..|events| - 1])); RegisteredIdle(SessionEnd(Run(front)), Run(front));
      }
    }
    RegisteredUnique(Run(events));
  }

  lemma RegisteredInit()
    ensures AllRegistered(INIT)
  {
  }

  lemma RegisteredIdle(g: Gate, before: Gate)
    requires Idle(before) && g.requests == before.requests && g.settled == before.settled
    ensures AllRegistered(g)
  {
    assert forall i: RequestId :: Unsettled(g, i) ==> Unsettled(before, i);
  }

  lemma RegisteredUnique(g: Gate)
    requires AllRegistered(g)
    ensures OnePerKey(g)
  {
  }

  /** Only started requests settle. */
  ghost predicate SettledKnown(g: Gate) { forall i :: i in g.settled ==> i < |g.requests| }

  lemma {:induction false} SettledKnownRun(events: seq<Event>)
    ensures SettledKnown(Run(events))
  {
    if events != [] {
      SettledKnownRun(events[..|events| - 1]);
    }
  }

  // ---- exactly when duplicates start ----

  /** The requests started before the current session. */
  function Older(events: seq<Event>): nat { |Run(events[..SessionStart(events)]).requests| }

  predicate Registered(g: Gate, id: RequestId) {
    id < |g.requests| && g.requests[id] in g.inflight && g.inflight[g.requests[id]] == id
  }

  /** At most one request of this session per key is in flight. */
  ghost predicate UniqueSince(g: Gate, older: nat) {
    forall i: RequestId, j: RequestId ::
      older <= i && older <= j && Unsettled(g, i) && Unsettled(g, j) && g.requests[i] == g.requests[j] ==> i == j
  }

  /** The settlement at position `p` was of an older request with the key of request `id`,
      which had started by then. */
  ghost predicate EvictsAt(events: seq<Event>, p: int, id: RequestId) {
    && 0 <= p < |events| && events[p].Settled?
    && var g, r := Run(events[..p]), events[p].id;
    && r < Older(events) && Unsettled(g, r) && id < |g.requests| && g.requests[id] == g.requests[r]
  }

  /** The requests of this session whose registration the settlement of an older request,
      in this session, has removed. */
  ghost function Evicted(events: seq<Event>): set<RequestId> {
    set id: RequestId | Older(events) <= id < |Run(events).requests| && EvictedInSession(events, id)
  }

  ghost predicate EvictedInSession(events: seq<Event>, id: RequestId) {
    exists p :: SessionStart(events) <= p && EvictsAt(events, p, id)
  }

  /** A call below the cap under the key of an evicted request that is still in flight. */
  ghost predicate HitsEvicted(g: Gate, evicted: set<RequestId>, e: Event) {
    e.Called? && g.count < 10
    && exists id :: id in evicted && Unsettled(g, id) && g.requests[id] == e.key
  }

  /** A call below the cap under the key of a request of an earlier session in flight. */
  ghost predicate HitsOlder(g: Gate, older: nat, e: Event) {
    e.Called? && g.count < 10
    && exists r: RequestId :: r < older && Unsettled(g, r) && g.requests[r] == e.key
  }

  function NextOlder(g: Gate, older: nat, e: Event): nat { if e.Ended? then |g.requests| else older }

  /** The requests of this session that the settlement of `r` would evict. */
  function SameKey(g: Gate, older: nat, r: RequestId): set<RequestId>
    requires r < |g.requests|
  {
    set id: RequestId | older <= id < |g.requests| && g.requests[id] == g.requests[r]
  }

  function NextEvicted(g: Gate, older: nat, evicted: set<RequestId>, e: Event): set<RequestId> {
    match e
    case Called(_) => evicted
    case Settled(r) => if r < older && Unsettled(g, r) then evicted + SameKey(g, older, r) else evicted
    case Ended => {}
  }

  /** What holds between events as long as no duplicate has started: the registrations are
      those of this session's requests in flight that were not evicted. */
  ghost predicate Tracked(g: Gate, older: nat, evicted: set<RequestId>) {
    && older <= |g.requests| && SettledKnown(g) && KeysMatch(g)
    && (forall k :: k in g.inflight ==> older <= g.inflight[k])
    && (forall id :: id in evicted ==> older <= id < |g.requests|)
    && (forall id: RequestId :: older <= id && Unsettled(g, id) ==> (Registered(g, id) <==> id !in evicted))
  }

  lemma TrackedCall(g: Gate, older: nat, evicted: set<RequestId>, key: string)
    requires Tracked(g, older, evicted) && UniqueSince(g, older)
    ensures UniqueSince(Call(g, key).0, older) <==> !HitsEvicted(g, evicted, Called(key))
    ensures !HitsEvicted(g, evicted, Called(key)) ==> Tracked(Call(g, key).0, older, evicted)
  {
    var next, id := Call(g, key).0, |g.requests|;
    if HitsEvicted(g, evicted, Called(key)) {
      var i :| i in evicted && Unsettled(g, i) && g.requests[i] == key;
      assert !Registered(g, i) && key !in g.inflight;
      assert Unsettled(next, i) && Unsettled(next, id) && next.requests[i] == next.requests[id];
    } else if next != g {
      forall i: RequestId | older <= i && Unsettled(next, i)
        ensures i < id ==> Unsettled(g, i) && next.requests[i] == g.requests[i] != key
        ensures Registered(next, i) <==> i !in evicted
      {
        assert i < id ==> Unsettled(g, i);
      }
    }
  }

  lemma TrackedSettle(g: Gate, older: nat, evicted: set<RequestId>, r: RequestId)
    requires Tracked(g, older, evicted) && UniqueSince(g, older)
    ensures UniqueSince(Settle(g, r), older)
    ensures Tracked(Settle(g, r), older, NextEvicted(g, older, evicted, Settled(r)))
  {
    var next, evicted' := Settle(g, r), NextEvicted(g, older, evicted, Settled(r));
    if Unsettled(g, r) {
      forall i: RequestId | older <= i && Unsettled(next, i)
        ensures Unsettled(g, i) && next.requests[i] == g.requests[i]
        ensures Registered(next, i) <==> i !in evicted'
      {
        assert Unsettled(g, i);
        assert r < older ==> (i in SameKey(g, older, r) <==> g.requests[i] == g.requests[r]);
      }
    }
  }

  lemma TrackedEnd(g: Gate)
    requires SettledKnown(g)
    ensures UniqueSince(SessionEnd(g), |g.requests|) && Tracked(SessionEnd(g), |g.requests|, {})
  {
  }

  lemma TrackedStep(g: Gate, older: nat, evicted: set<RequestId>, e: Event)
    requires Tracked(g, older, evicted) && UniqueSince(g, older)
    ensures UniqueSince(Step(g, e), NextOlder(g, older, e)) <==> !HitsEvicted(g, evicted, e)
    ensures !HitsEvicted(g, evicted, e) ==>
              Tracked(Step(g, e), NextOlder(g, older, e), NextEvicted(g, older, evicted, e))
  {
    match e {
      case Called(key) => TrackedCall(g, older, evicted, key);
      case Settled(r) => TrackedSettle(g, older, evicted, r);
      case Ended => TrackedEnd(g);
    }
  }

  // ---- over whole runs ----

  lemma OlderStep(events: seq<Event>, e: Event)
    ensures Older(events + [e]) == NextOlder(Run(events), Older(events), e)
    ensures SessionStart(events + [e]) == if e.Ended? then |events| + 1 else SessionStart(events)
    ensures Run(events + [e]) == Step(Run(events), e)
  {
    var all := events + [e];
    assert all[..|events|] == events && all[..|all|] == all;
    if e.Ended? {
      assert Run(all).requests == Run(events).requests;
    } else {
      assert all[..SessionStart(events)] == events[..SessionStart(events)];
    }
  }

  lemma {:induction false} RequestsGrow(events: seq<Event>, n: nat)
    requires n <= |events|
    ensures Run(events[..n]).requests <= Run(events).requests
  {
    if n == |events| {
      assert events[..n] == events;
    } else {
      var front := events[..|events| - 1];
      assert front[..n] == events[..n];
      RequestsGrow(front, n);
    }
  }

  lemma EvictsAtStep(events: seq<Event>, e: Event, p: int, id: RequestId)
    requires !e.Ended?
    ensures EvictsAt(events + [e], p, id) <==> if p < |events| then EvictsAt(events, p, id) else EvictsAt(events + [e], |events|, id) && p == |events|
  {
    hide Older, Run;
    OlderStep(events, e);
    if 0 <= p < |events| {
      assert (events + [e])[..p] == events[..p];
    }
  }

  /** The settlement just made. */
  lemma EvictsLast(events: seq<Event>, e: Event, id: RequestId)
    requires !e.Ended?
    ensures EvictsAt(events + [e], |events|, id)
        <==> e.Settled? && e.id < Older(events) && Unsettled(Run(events), e.id) && id < |Run(events).requests|
             && Run(events).requests[id] == Run(events).requests[e.id]
  {
    hide Older, Run;
    OlderStep(events, e);
    assert (events + [e])[..|events|] == events;
  }

  lemma EvictsKnown(events: seq<Event>, p: int, id: RequestId)
    requires EvictsAt(events, p, id)
    ensures id < |Run(events).requests|
  {
    RequestsGrow(events, p);
  }

  lemma EvictedStep(events: seq<Event>, e: Event)
    ensures Evicted(events + [e]) == NextEvicted(Run(events), Older(events), Evicted(events), e)
  {
    hide Older, Run, EvictsAt, Step;
    var all, now := events + [e], NextEvicted(Run(events), Older(events), Evicted(events), e);
    OlderStep(events, e);
    if e.Ended? {
      assert forall p, id :: SessionStart(all) <= p ==> !EvictsAt(all, p, id) by { EvictsInside(all); }
      assert Evicted(all) == {};
    } else {
      forall id: RequestId ensures id in Evicted(all) <==> id in now {
        EvictedMember(events, e, id);
      }
    }
  }

  lemma EvictsInside(events: seq<Event>)
    ensures forall p, id :: EvictsAt(events, p, id) ==> 0 <= p < |events|
  {
  }

  lemma EvictedMember(events: seq<Event>, e: Event, id: RequestId)
    requires !e.Ended?
    ensures id in Evicted(events + [e]) <==> id in NextEvicted(Run(events), Older(events), Evicted(events), e)
  {
    hide Older, Run, EvictsAt, Step;
    var all := events + [e];
    OlderStep(events, e);
    EvictsLast(events, e, id);
    StartInside(events);
    if id in Evicted(all) {
      var p :| SessionStart(all) <= p && EvictsAt(all, p, id);
      EvictsAtStep(events, e, p, id);
      if p < |events| {
        EvictsKnown(events, p, id);
      }
    }
    if id in Evicted(events) {
      var p :| SessionStart(events) <= p && EvictsAt(events, p, id);
      EvictsInside(events);
      EvictsAtStep(events, e, p, id);
      EvictsKnown(all, p, id);
    }
    if EvictsAt(all, |events|, id) {
      EvictsKnown(all, |events|, id);
    }
  }

  lemma StartInside(events: seq<Event>)
    ensures SessionStart(events) <= |events|
  {
  }

  /** No call so far hit an evicted request in flight. */
  ghost predicate NoEvictedHit(events: seq<Event>) {
    forall n :: 0 <= n < |events| ==> !HitsEvicted(Run(events[..n]), Evicted(events[..n]), events[n])
  }

  /** At every moment of the run, at most one request per key of its session is in flight. */
  ghost predicate AlwaysUnique(events: seq<Event>) {
    forall n :: 0 <= n <= |events| ==> UniqueSince(Run(events[..n]), Older(events[..n]))
  }

  lemma NoEvictedHitPush(events: seq<Event>, e: Event)
    ensures NoEvictedHit(events + [e]) <==> NoEvictedHit(events) && !HitsEvicted(Run(events), Evicted(events), e)
  {
    hide Run, Evicted, HitsEvicted;
    var all := events + [e];
    assert all[..|events|] == events && all[|events|] == e;
    assert forall n :: 0 <= n < |events| ==> all[..n] == events[..n] && all[n] == events[n];
  }

  lemma AlwaysUniquePush(events: seq<Event>, e: Event)
    ensures AlwaysUnique(events + [e]) <==> AlwaysUnique(events) && UniqueSince(Run(events + [e]), Older(events + [e]))
  {
    hide Run, Older, UniqueSince;
    var all := events + [e];
    assert all[..|all|] == all;
    assert forall n :: 0 <= n <= |events| ==> all[..n] == events[..n];
  }

  /** Same key, same session, one request: at every moment of a run exactly when no call
      below the cap comes under the key of a request of its session that is still in flight
      and whose registration the settlement of an older request has removed. */
  lemma {:induction false} CollapsesExactly(events: seq<Event>)
    ensures AlwaysUnique(events) <==> NoEvictedHit(events)
    ensures AlwaysUnique(events) ==> UniqueSince(Run(events), Older(events)) && Tracked(Run(events), Older(events), Evicted(events))
  {
    if events == [] {
      NoEvents();
    } else {
      hide Run, Older, Evicted, UniqueSince, Tracked, HitsEvicted, AlwaysUnique, NoEvictedHit, Step;
      var front, e := events[..|events| - 1], events[|events| - 1];
      assert events == front + [e];
      CollapsesExactly(front);
      NoEvictedHitPush(front, e);
      AlwaysUniquePush(front, e);
      OlderStep(front, e);
      EvictedStep(front, e);
      if AlwaysUnique(front) {
        TrackedStep(Run(front), Older(front), Evicted(front), e);
      }
    }
  }

  lemma NoEvents()
    ensures Run([]) == INIT && Older([]) == 0 && Evicted([]) == {}
    ensures UniqueSince(INIT, 0) && Tracked(INIT, 0, {}) && AlwaysUnique([]) && NoEvictedHit([])
  {
    var none: seq<Event> := [];
    assert none[..0] == none;
    assert forall n :: 0 <= n <= |none| ==> none[..n] == none;
  }

  /** A run that posts the same query twice in one session: a request of the session before
      settles and takes the new request's registration with it. */
  lemma EvictionExample(q: string)
    ensures !AlwaysUnique([Called(q), Ended, Called(q), Settled(0), Called(q)])
  {
    var events := [Called(q), Ended, Called(q), Settled(0)];
    var all := [Called(q), Ended, Called(q), Settled(0), Called(q)];
    ExampleRun(q);
    OlderStep(events, Called(q));
    assert events + [Called(q)] == all;
    var g := Run(all);
    assert g.requests == [q, q, q] && g.settled == {0};
    assert Unsettled(g, 1) && Unsettled(g, 2);
    assert !UniqueSince(g, 1);
    assert all[..|all|] == all;
  }

  lemma ExampleRun(q: string)
    ensures var events := [Called(q), Ended, Called(q), Settled(0)];
            Run(events) == Gate(1, map[], [q, q], {0}) && Older(events) == 1
    ensures Run([Called(q), Ended, Called(q)]) == Gate(1, map[q := 1], [q, q], {})
  {
    hide Run, Older, Step;
    ExampleSteps(q);
    NoEvents();
    OlderStep([], Called(q));
    OlderStep([] + [Called(q)], Ended);
    OlderStep([] + [Called(q)] + [Ended], Called(q));
    OlderStep([] + [Called(q)] + [Ended] + [Called(q)], Settled(0));
    assert [] + [Called(q)] + [Ended] + [Called(q)] == [Called(q), Ended, Called(q)];
    assert [] + [Called(q)] + [Ended] + [Called(q)] + [Settled(0)] == [Called(q), Ended, Called(q), Settled(0)];
  }

  lemma ExampleSteps(q: string)
    ensures Step(INIT, Called(q)) == Gate(1, map[q := 0], [q], {})
    ensures Step(Gate(1, map[q := 0], [q], {}), Ended) == Gate(0, map[], [q], {})
    ensures Step(Gate(0, map[], [q], {}), Called(q)) == Gate(1, map[q := 1], [q, q], {})
    ensures Step(Gate(1, map[q := 1], [q, q], {}), Settled(0)) == Gate(1, map[], [q, q], {0})
  {
    assert map[q := 1] - {q} == map[];
  }

  // ---- across sessions ----

  ghost predicate RegisteredSince(g: Gate, older: nat) {
    && older <= |g.requests| && SettledKnown(g) && KeysMatch(g)
    && (forall k :: k in g.inflight ==> older <= g.inflight[k])
    && (forall id: RequestId :: older <= id && Unsettled(g, id) ==> Registered(g, id))
  }

  lemma SinceCall(g: Gate, older: nat, key: string)
    requires RegisteredSince(g, older) && OnePerKey(g)
    ensures OnePerKey(Call(g, key).0) <==> !HitsOlder(g, older, Called(key))
    ensures !HitsOlder(g, older, Called(key)) ==> RegisteredSince(Call(g, key).0, older)
  {
    var next, id := Call(g, key).0, |g.requests|;
    if HitsOlder(g, older, Called(key)) {
      var r: RequestId :| r < older && Unsettled(g, r) && g.requests[r] == key;
      assert key !in g.inflight;
      assert Unsettled(next, r) && Unsettled(next, id) && next.requests[r] == next.requests[id];
    } else if next != g {
      forall i: RequestId | Unsettled(next, i)
        ensures i < id ==> Unsettled(g, i) && next.requests[i] == g.requests[i] != key
        ensures older <= i ==> Registered(next, i)
      {
        assert i < id ==> Unsettled(g, i);
        assert i < id && older <= i ==> Registered(g, i);
      }
    }
  }

  lemma SinceSettle(g: Gate, older: nat, r: RequestId)
    requires RegisteredSince(g, older) && OnePerKey(g)
    ensures OnePerKey(Settle(g, r)) && RegisteredSince(Settle(g, r), older)
  {
    var next := Settle(g, r);
    if Unsettled(g, r) {
      forall i: RequestId | Unsettled(next, i)
        ensures Unsettled(g, i) && next.requests[i] == g.requests[i] != g.requests[r]
        ensures older <= i ==> Registered(next, i)
      {
        assert Unsettled(g, i);
        assert older <= i ==> Registered(g, i);
      }
    }
  }

  lemma SinceEnd(g: Gate)
    requires SettledKnown(g) && OnePerKey(g)
    ensures OnePerKey(SessionEnd(g)) && RegisteredSince(SessionEnd(g), |g.requests|)
  {
    assert forall i: RequestId :: Unsettled(SessionEnd(g), i) <==> Unsettled(g, i);
  }

  lemma SinceStep(g: Gate, older: nat, e: Event)
    requires RegisteredSince(g, older) && OnePerKey(g)
    ensures OnePerKey(Step(g, e)) <==> !HitsOlder(g, older, e)
    ensures !HitsOlder(g, older, e) ==> RegisteredSince(Step(g, e), NextOlder(g, older, e))
  {
    match e {
      case Called(key) => SinceCall(g, older, key);
      case Settled(r) => SinceSettle(g, older, r);
      case Ended => SinceEnd(g);
    }
  }

  ghost predicate NoOlderHit(events: seq<Event>) {
    forall n :: 0 <= n < |events| ==> !HitsOlder(Run(events[..n]), Older(events[..n]), events[n])
  }

  ghost predicate AlwaysOnePerKey(events: seq<Event>) {
    forall n :: 0 <= n <= |events| ==> OnePerKey(Run(events[..n]))
  }

  lemma NoOlderHitPush(events: seq<Event>, e: Event)
    ensures NoOlderHit(events + [e]) <==> NoOlderHit(events) && !HitsOlder(Run(events), Older(events), e)
  {
    hide Run, Older, HitsOlder;
    var all := events + [e];
    assert all[..|events|] == events && all[|events|] == e;
    assert forall n :: 0 <= n < |events| ==> all[..n] == events[..n] && all[n] == events[n];
  }

  lemma AlwaysOnePerKeyPush(events: seq<Event>, e: Event)
    ensures AlwaysOnePerKey(events + [e]) <==> AlwaysOnePerKey(events) && OnePerKey(Run(events + [e]))
  {
    hide Run, OnePerKey;
    var all := events + [e];
    assert all[..|all|] == all;
    assert forall n :: 0 <= n <= |events| ==> all[..n] == events[..n];
  }

  /** One request per key whatever its session: at every moment of a run exactly when no
      call below the cap comes under the key of a request of an earlier session in flight. */
  lemma {:induction false} OnePerKeyExactly(events: seq<Event>)
    ensures AlwaysOnePerKey(events) <==> NoOlderHit(events)
    ensures AlwaysOnePerKey(events) ==> OnePerKey(Run(events)) && RegisteredSince(Run(events), Older(events))
  {
    if events == [] {
      NoEvents();
      assert forall n :: 0 <= n <= |events| ==> events[..n] == [];
    } else {
      hide Run, Older, OnePerKey, RegisteredSince, HitsOlder, AlwaysOnePerKey, NoOlderHit, Step;
      var front, e := events[..|events| - 1], events[|events| - 1];
      assert events == front + [e];
      OnePerKeyExactly(front);
      NoOlderHitPush(front, e);
      AlwaysOnePerKeyPush(front, e);
      OlderStep(front, e);
      if AlwaysOnePerKey(front) {
        SinceStep(Run(front), Older(front), e);
      }
    }
  }

  /** A run with two requests of one key in flight, started in two sessions. */
  lemma OutlivingExample(q: string)
    ensures !AlwaysOnePerKey([Called(q), Ended, Called(q)])
  {
    hide Run;
    var all := [Called(q), Ended, Called(q)];
    ExampleRun(q);
    var g := Run(all);
    assert Unsettled(g, 0) && Unsettled(g, 1) && g.requests[0] == g.requests[1];
    assert all[..|all|] == all;
  }
}
