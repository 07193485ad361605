/**
 Draining the workflow outbox onto the event bus (`drain_workflow_events` in
 src/alert.rs, `deliver` in src/workflow/outbox.rs): per domain and tick, at most one
 batch of pending rows with a matching topic is delivered, in id order, and every
 delivered row is published. Whether a delivery succeeds is an input.
 */
module Outbox {
  import opened Common
  import opened CharText

  const WORKFLOW_DRAIN_BATCH: nat := 100

  datatype Status = Pending | Delivered

  datatype Row = Row(id: int, runId: int, topic: string, payload: string, parent: Option<int>,
                     key: string, status: Status)

  datatype Kind = ValetDue | Workflow

  datatype Event = Event(domain: nat, id: int, runId: int, topic: string, parent: Option<int>, kind: Kind)

  // ---- which rows, and as what ----

  /** `topic LIKE 'prefix%'`, which ignores ASCII case. */
  predicate Like(topic: string, prefix: string) {
    |prefix| <= |topic| && forall i :: 0 <= i < |prefix| ==> LowerChar(topic[i]) == LowerChar(prefix[i])
  }

  predicate Matches(topic: string) { Like(topic, "workflow/") || Like(topic, "case/") }

  /** The two topic families, in any mix of ASCII case. */
  lemma MatchesExactly(topic: string)
    ensures Matches(topic) <==> InFamily(topic, "workflow/", "WORKFLOW/") || InFamily(topic, "case/", "CASE/")
  {
    LikeWorkflow(topic);
    LikeCase(topic);
    hide Like, InFamily;
  }

  lemma LikeWorkflow(topic: string)
    ensures Like(topic, "workflow/") <==> InFamily(topic, "workflow/", "WORKFLOW/")
  {
  }

  lemma LikeCase(topic: string)
    ensures Like(topic, "case/") <==> InFamily(topic, "case/", "CASE/")
  {
  }

  /** Each of the first characters is that of one spelling or of the other. */
  ghost predicate InFamily(topic: string, small: string, large: string)
    requires |small| == |large|
  {
    |small| <= |topic| && forall i :: 0 <= i < |small| ==> topic[i] == small[i] || topic[i] == large[i]
  }

  predicate Due(r: Row) { r.status.Pending? && Matches(r.topic) }

  /** The trusted kind needs both the topic and the kernel's key prefix. */
  function KindOf(r: Row): Kind {
    if "workflow/valet" <= r.topic && "valet-" <= r.key then ValetDue else Workflow
  }

  function EventOf(domain: nat, r: Row): Event { Event(domain, r.id, r.runId, r.topic, r.parent, KindOf(r)) }

  /** A table in id order; ids are assigned in increasing order and never reused. */
  ghost predicate IdOrder(rows: seq<Row>) {
    forall i, j :: 0 <= i < j < |rows| ==> rows[i].id < rows[j].id
  }

  // ---- one domain, one tick ----

  /** The effect of one tick: walking the table in order, each of the first `budget` due
      rows is delivered and published if its delivery succeeds, and skipped otherwise. */
  function Drain(domain: nat, rows: seq<Row>, budget: nat, ok: int -> bool): (seq<Row>, seq<Event>)
    decreases |rows|
  {
    if rows == [] then ([], [])
    else
      var r := rows[0];
      if Due(r) && budget > 0 then
        var (rest, events) := Drain(domain, rows[1..], budget - 1, ok);
        if ok(r.id) then ([r.(status := Delivered)] + rest, [EventOf(domain, r)] + events) else ([r] + rest, events)
      else
        var (rest, events) := Drain(domain, rows[1..], budget, ok);
        ([r] + rest, events)
  }

  /** The batch a tick selects: pending, matching, in id order, at most `budget`. */
  function Select(rows: seq<Row>, budget: nat): seq<Row>
    decreases |rows|
  {
    if rows == [] || budget == 0 then []
    else if Due(rows[0]) then [rows[0]] + Select(rows[1..], budget - 1)
    else Select(rows[1..], budget)
  }

  /** `UPDATE … SET status = 'delivered' WHERE id = ? AND status = 'pending'`. */
  function Deliver(rows: seq<Row>, id: int): seq<Row>
    decreases |rows|
  {
    if rows == [] then []
    else [if rows[0].id == id && rows[0].status.Pending? then rows[0].(status := Delivered) else rows[0]]
         + Deliver(rows[1..], id)
  }

  /** Delivering a selected batch, row by row. */
  function DeliverAll(domain: nat, rows: seq<Row>, batch: seq<Row>, ok: int -> bool): (seq<Row>, seq<Event>)
    decreases |batch|
  {
    if batch == [] then (rows, [])
    else
      var r := batch[0];
      if ok(r.id) then
        var (after, events) := DeliverAll(domain, Deliver(rows, r.id), batch[1..], ok);
        (after, [EventOf(domain, r)] + events)
      else DeliverAll(domain, rows, batch[1..], ok)
  }

  lemma {:induction false} DeliverOther(rows: seq<Row>, id: int)
    requires forall i :: 0 <= i < |rows| ==> rows[i].id != id
    ensures Deliver(rows, id) == rows
  {
    if rows != [] {
      DeliverOther(rows[1..], id);
    }
  }

  /** A row the batch does not name is left alone and stays in front. */
  lemma {:induction false} DeliverAllHead(domain: nat, r: Row, rest: seq<Row>, batch: seq<Row>, ok: int -> bool)
    requires forall i :: 0 <= i < |batch| ==> batch[i].id != r.id
    ensures DeliverAll(domain, [r] + rest, batch, ok)
         == ([r] + DeliverAll(domain, rest, batch, ok).0, DeliverAll(domain, rest, batch, ok).1)
    decreases |batch|
  {
    if batch != [] {
      var b := batch[0];
      assert ([r] + rest)[1..] == rest;
      assert b.id != r.id;
      assert Deliver([r] + rest, b.id) == [r] + Deliver(rest, b.id);
      DeliverAllHead(domain, r, if ok(b.id) then Deliver(rest, b.id) else rest, batch[1..], ok);
    }
  }

  lemma {:induction false} SelectIds(rows: seq<Row>, budget: nat)
    ensures forall i :: 0 <= i < |Select(rows, budget)| ==> Select(rows, budget)[i] in rows
    decreases |rows|
  {
    if rows != [] && budget > 0 {
      SelectIds(rows[1..], if Due(rows[0]) then budget - 1 else budget);
    }
  }

  /** Selecting a batch and then delivering it row by row is the single walk `Drain`. */
  lemma {:induction false} SelectThenDeliver(domain: nat, rows: seq<Row>, budget: nat, ok: int -> bool)
    requires IdOrder(rows)
    ensures DeliverAll(domain, rows, Select(rows, budget), ok) == Drain(domain, rows, budget, ok)
    decreases |rows|
  {
    hide Due, EventOf;
    if rows == [] {
    } else if budget == 0 {
      DrainNoBudget(domain, rows, ok);
    } else {
      var r, rest := rows[0], rows[1..];
      assert rows == [r] + rest;
      var left := if Due(r) then budget - 1 else budget;
      SelectThenDeliver(domain, rest, left, ok);
      SelectIds(rest, left);
      assert forall x :: x in rest ==> r.id < x.id;
      DeliverAllHead(domain, r, rest, Select(rest, left), ok);
      if Due(r) {
        DeliverDueHead(domain, r, rest, Select(rest, left), ok);
      }
      hide DeliverAll;
    }
  }

  /** Delivering a batch whose first row is the table's first row. */
  lemma DeliverDueHead(domain: nat, r: Row, rest: seq<Row>, batch: seq<Row>, ok: int -> bool)
    requires Due(r) && (forall x :: x in rest ==> r.id < x.id) && (forall x :: x in batch ==> x in rest)
    ensures var (after, events) := DeliverAll(domain, rest, batch, ok);
            DeliverAll(domain, [r] + rest, [r] + batch, ok)
            == if ok(r.id) then ([r.(status := Delivered)] + after, [EventOf(domain, r)] + events)
               else ([r] + after, events)
  {
    hide Due, Deliver, EventOf;
    assert ([r] + batch)[1..] == batch;
    DeliverOther(rest, r.id);
    DeliverFirst(r, rest);
    DeliverAllHead(domain, r, rest, batch, ok);
    DeliverAllHead(domain, r.(status := Delivered), rest, batch, ok);
  }

  lemma DeliverFirst(r: Row, rest: seq<Row>)
    requires Due(r) && Deliver(rest, r.id) == rest
    ensures Deliver([r] + rest, r.id) == [r.(status := Delivered)] + rest
  {
    assert ([r] + rest)[1..] == rest;
  }

  lemma {:induction false} DrainNoBudget(domain: nat, rows: seq<Row>, ok: int -> bool)
    ensures Drain(domain, rows, 0, ok) == (rows, [])
    decreases |rows|
  {
    if rows != [] {
      DrainNoBudget(domain, rows[1..], ok);
      assert rows == [rows[0]] + rows[1..];
    }
  }

  // ---- the worker ----

  class Bus {
    var tables: seq<seq<Row>>
    var published: seq<Event>

    ghost predicate Valid()
      reads this
    {
      forall d :: 0 <= d < |tables| ==> IdOrder(tables[d])
    }

    constructor (tables: seq<seq<Row>>)
      requires forall d :: 0 <= d < |tables| ==> IdOrder(tables[d])
      ensures Valid() && this.tables == tables && published == []
    {
      this.tables, published := tables, [];
    }

    /** One pass over every domain whose pool is available. */
    method DrainWorkflowEvents(available: nat -> bool, ok: (nat, int) -> bool) returns (count: nat)
      requires Valid()
      modifies this
      ensures Valid()
      ensures (tables, published) == TickAll(old(tables), old(published), |old(tables)|, available, ok)
      ensures count == |published| - |old(published)|
    {
      count := 0;
      for d := 0 to |tables|
        invariant |tables| == |old(tables)| && Valid()
        invariant (tables, published) == TickAll(old(tables), old(published), d, available, ok)
        invariant forall k :: d <= k < |tables| ==> tables[k] == old(tables)[k]
        invariant count == |published| - |old(published)|
      {
        if !available(d) {
          continue;
        }
        var rows, events := DrainDomain(d, tables[d], OkIn(ok, d));
        DrainKeeps(d, tables[d], WORKFLOW_DRAIN_BATCH, OkIn(ok, d));
        tables := tables[d := rows];
        published := published + events;
        count := count + |events|;
      }
    }
  }

  /** The rows loop of one domain: select, then deliver and publish each. */
  method DrainDomain(domain: nat, rows: seq<Row>, ok: int -> bool) returns (after: seq<Row>, events: seq<Event>)
    requires IdOrder(rows)
    ensures (after, events) == Drain(domain, rows, WORKFLOW_DRAIN_BATCH, ok)
  {
    hide Drain, Select, Deliver, EventOf, IdOrder;
    var batch := Select(rows, WORKFLOW_DRAIN_BATCH);
    SelectThenDeliver(domain, rows, WORKFLOW_DRAIN_BATCH, ok);
    after, events := rows, [];
    assert batch[0..] == batch && [] + DeliverAll(domain, rows, batch, ok).1 == DeliverAll(domain, rows, batch, ok).1;
    for i := 0 to |batch|
      invariant DeliverAll(domain, rows, batch, ok)
             == (DeliverAll(domain, after, batch[i..], ok).0, events + DeliverAll(domain, after, batch[i..], ok).1)
    {
      var r := batch[i];
      assert batch[i..][1..] == batch[i + 1..] && batch[i..][0] == r;
      if !ok(r.id) {
        continue;
      }
      ghost var tail := DeliverAll(domain, Deliver(after, r.id), batch[i + 1..], ok).1;
      assert events + ([EventOf(domain, r)] + tail) == (events + [EventOf(domain, r)]) + tail;
      after := Deliver(after, r.id);
      events := events + [EventOf(domain, r)];
    }
    assert batch[|batch|..] == [];
    assert events + [] == events;
  }

  /** The deliveries that succeed in one domain. */
  function OkIn(ok: (nat, int) -> bool, d: nat): int -> bool { (id: int) => ok(d, id) }

  /** Draining the first `n` domains. */
  function TickAll(tables: seq<seq<Row>>, published: seq<Event>, n: nat, available: nat -> bool,
                   ok: (nat, int) -> bool): (r: (seq<seq<Row>>, seq<Event>))
    requires n <= |tables|
    ensures |r.0| == |tables| && forall d :: n <= d < |tables| ==> r.0[d] == tables[d]
  {
    if n == 0 then (tables, published)
    else
      var (ts, ps) := TickAll(tables, published, n - 1, available, ok);
      if available(n - 1) then
        var (rows, events) := Drain(n - 1, ts[n - 1], WORKFLOW_DRAIN_BATCH, OkIn(ok, n - 1));
        (ts[n - 1 := rows], ps + events)
      else (ts, ps)
  }

  // ---- what a tick changes ----

  /** A tick keeps every row in place; a row changes only from pending to delivered, only
      if its topic matches, and exactly the rows that change are published, in id order. */
  lemma {:induction false} DrainKeeps(domain: nat, rows: seq<Row>, budget: nat, ok: int -> bool)
    ensures var (after, events) := Drain(domain, rows, budget, ok);
            && |after| == |rows|
            && (forall i :: 0 <= i < |rows| ==>
                  after[i] == rows[i] || (Due(rows[i]) && ok(rows[i].id) && after[i] == rows[i].(status := Delivered)))
            && (IdOrder(rows) ==> IdOrder(after))
    decreases |rows|
  {
    hide EventOf;
    if rows != [] {
      DrainKeeps(domain, rows[1..], if Due(rows[0]) && budget > 0 then budget - 1 else budget, ok);
    }
  }

  /** The rows delivered between two versions of a table, in order. */
  function NewlyDelivered(domain: nat, before: seq<Row>, after: seq<Row>): seq<Event>
    requires |before| == |after|
    decreases |before|
  {
    if before == [] then []
    else (if before[0].status != after[0].status then [EventOf(domain, before[0])] else [])
         + NewlyDelivered(domain, before[1..], after[1..])
  }

  lemma {:induction false} PublishedAreDelivered(domain: nat, rows: seq<Row>, budget: nat, ok: int -> bool)
    ensures var (after, events) := Drain(domain, rows, budget, ok);
            |after| == |rows| && events == NewlyDelivered(domain, rows, after)
    decreases |rows|
  {
    hide EventOf;
    if rows != [] {
      var left := if Due(rows[0]) && budget > 0 then budget - 1 else budget;
      PublishedAreDelivered(domain, rows[1..], left, ok);
      var rest := Drain(domain, rows[1..], left, ok).0;
      var after := Drain(domain, rows, budget, ok).0;
      assert after[1..] == rest;
    }
  }

  function DueCount(rows: seq<Row>): nat {
    if rows == [] then 0 else (if Due(rows[0]) then 1 else 0) + DueCount(rows[1..])
  }

  lemma {:induction false} DrainProgress(domain: nat, rows: seq<Row>, budget: nat, ok: int -> bool)
    requires forall id :: ok(id)
    ensures var (after, events) := Drain(domain, rows, budget, ok);
            && DueCount(after) == (if DueCount(rows) <= budget then 0 else DueCount(rows) - budget)
            && |events| == DueCount(rows) - DueCount(after)
    decreases |rows|
  {
    hide EventOf, Matches;
    if rows != [] {
      var left := if Due(rows[0]) && budget > 0 then budget - 1 else budget;
      DrainProgress(domain, rows[1..], left, ok);
      var rest := Drain(domain, rows[1..], left, ok).0;
      var after := Drain(domain, rows, budget, ok).0;
      assert after[1..] == rest;
    }
  }

  /** The pending rows of the two topic families. */
  function Waiting(rows: seq<Row>): set<int> {
    set k | 0 <= k < |rows| && rows[k].status.Pending? && Matches(rows[k].topic)
  }

  lemma {:induction false} DueCountIs(rows: seq<Row>)
    ensures DueCount(rows) == |Waiting(rows)|
  {
    if rows != [] {
      hide Matches, Waiting, DueCount, Due;
      var front, r := rows[..|rows| - 1], rows[|rows| - 1];
      DueCountIs(front);
      DueCountPush(front, r);
      assert rows == front + [r];
      WaitingPush(front, r);
    }
  }

  lemma WaitingPush(rows: seq<Row>, r: Row)
    ensures |Waiting(rows + [r])| == |Waiting(rows)| + (if Due(r) then 1 else 0)
  {
    hide Matches;
    assert Waiting(rows + [r]) == Waiting(rows) + (if Due(r) then {|rows|} else {});
  }

  lemma {:induction false} DueCountPush(rows: seq<Row>, r: Row)
    ensures DueCount(rows + [r]) == DueCount(rows) + (if Due(r) then 1 else 0)
  {
    hide Due;
    if rows != [] {
      DueCountPush(rows[1..], r);
      assert (rows + [r])[1..] == rows[1..] + [r];
    } else {
      assert ([] + [r])[1..] == [];
    }
  }

  /** Which rows a tick reaches: a pending row is delivered exactly when its topic is of the
      two families, its delivery succeeds and fewer such rows than a batch stand before it,
      whatever becomes of those. */
  lemma {:induction false} BatchReaches(domain: nat, rows: seq<Row>, budget: nat, ok: int -> bool, k: nat)
    requires k < |rows| && rows[k].status.Pending?
    ensures var after := Drain(domain, rows, budget, ok).0;
            && |after| == |rows|
            && (after[k].status.Delivered?
                <==> Matches(rows[k].topic) && ok(rows[k].id) && |Waiting(rows[..k])| < budget)
    decreases |rows|
  {
    hide EventOf, Matches, Waiting;
    DrainKeeps(domain, rows, budget, ok);
    DueCountIs(rows[..k]);
    if k > 0 {
      var left := if Due(rows[0]) && budget > 0 then budget - 1 else budget;
      BatchReaches(domain, rows[1..], left, ok, k - 1);
      DueCountIs(rows[1..][..k - 1]);
      assert rows[..k][1..] == rows[1..][..k - 1];
      var rest := Drain(domain, rows[1..], left, ok).0;
      assert Drain(domain, rows, budget, ok).0[1..] == rest;
    }
  }

  /** Rows enqueued behind do not affect what a tick does to those in front. */
  lemma {:induction false} DrainPrefix(domain: nat, rows: seq<Row>, more: seq<Row>, budget: nat, ok: int -> bool)
    ensures |Drain(domain, rows + more, budget, ok).0| == |rows| + |more|
    ensures Drain(domain, rows + more, budget, ok).0[..|rows|] == Drain(domain, rows, budget, ok).0
    decreases |rows|
  {
    hide EventOf, Due;
    DrainKeeps(domain, rows + more, budget, ok);
    if rows != [] {
      var left := if Due(rows[0]) && budget > 0 then budget - 1 else budget;
      DrainPrefix(domain, rows[1..], more, left, ok);
      DrainHead(domain, rows, budget, ok);
      DrainHead(domain, rows + more, budget, ok);
      assert (rows + more)[1..] == rows[1..] + more;
      hide Drain, Due;
      var rest := Drain(domain, rows[1..] + more, left, ok).0;
      TakeCons(Drain(domain, rows, budget, ok).0[0], rest, |rows| - 1);
    }
  }

  lemma TakeCons(r: Row, rest: seq<Row>, n: nat)
    requires n <= |rest|
    ensures ([r] + rest)[..n + 1] == [r] + rest[..n]
  {
  }

  lemma DrainHead(domain: nat, rows: seq<Row>, budget: nat, ok: int -> bool)
    requires rows != []
    ensures var due := Due(rows[0]) && budget > 0;
            Drain(domain, rows, budget, ok).0
            == [if due && ok(rows[0].id) then rows[0].(status := Delivered) else rows[0]]
               + Drain(domain, rows[1..], if due then budget - 1 else budget, ok).0
  {
    hide EventOf, Due;
  }

  // ---- runs ----

  datatype Op = Tick(available: nat -> bool, ok: (nat, int) -> bool) | Add(domain: nat, row: Row)

  datatype State = State(tables: seq<seq<Row>>, published: seq<Event>)

  /** An enqueue that the table would accept: an existing domain, a fresh larger id. */
  predicate CanAdd(s: State, domain: nat, row: Row) {
    && domain < |s.tables| && row.status.Pending?
    && (s.tables[domain] == [] || s.tables[domain][|s.tables[domain]| - 1].id < row.id)
  }

  function Step(s: State, op: Op): State {
    match op
    case Tick(available, ok) =>
      var (ts, ps) := TickAll(s.tables, s.published, |s.tables|, available, ok);
      State(ts, ps)
    case Add(d, row) =>
      if CanAdd(s, d, row) then s.(tables := s.tables[d := s.tables[d] + [row]]) else s
  }

  function Run(s: State, ops: seq<Op>): State {
    if ops == [] then s else Step(Run(s, ops[..|ops| - 1]), ops[|ops| - 1])
  }

  // ---- delivered rows are published ----

  /** The events of one domain, in order. */
  function EventsIn(events: seq<Event>, d: nat): seq<Event> {
    if events == [] then []
    else EventsIn(events[..|events| - 1], d)
         + (if events[|events| - 1].domain == d then [events[|events| - 1]] else [])
  }

  lemma {:induction false} EventsInAppend(x: seq<Event>, y: seq<Event>, d: nat)
    ensures EventsIn(x + y, d) == EventsIn(x, d) + EventsIn(y, d)
  {
    if y == [] {
      assert x + y == x;
    } else {
      assert (x + y)[..|x + y| - 1] == x + y[..|y| - 1];
      EventsInAppend(x, y[..|y| - 1], d);
    }
  }

  lemma {:induction false} EventsInOwn(events: seq<Event>, e: nat, d: nat)
    requires forall i :: 0 <= i < |events| ==> events[i].domain == e
    ensures EventsIn(events, d) == if d == e then events else []
  {
    if events != [] {
      EventsInOwn(events[..|events| - 1], e, d);
      assert events == events[..|events| - 1] + [events[|events| - 1]];
    }
  }

  lemma {:induction false} NothingDelivered(d: nat, rows: seq<Row>)
    ensures NewlyDelivered(d, rows, rows) == []
  {
    if rows != [] {
      NothingDelivered(d, rows[1..]);
    }
  }

  /** The events a pass adds, up to domain `n`: for each domain exactly its newly delivered
      rows, in table order. */
  ghost predicate Announced(before: seq<seq<Row>>, after: seq<seq<Row>>, added: seq<Event>, d: nat) {
    && d < |before| == |after| && |before[d]| == |after[d]|
    && EventsIn(added, d) == NewlyDelivered(d, before[d], after[d])
  }

  lemma {:induction false} TickPublishes(tables: seq<seq<Row>>, published: seq<Event>, n: nat, available: nat -> bool,
                                         ok: (nat, int) -> bool, d: nat)
    requires n <= |tables| && d < |tables|
    ensures var (ts, ps) := TickAll(tables, published, n, available, ok);
            published <= ps && Announced(tables, ts, ps[|published|..], d)
  {
    hide Drain, NewlyDelivered, EventsIn;
    var (ts, ps) := TickAll(tables, published, n, available, ok);
    if n == 0 {
      assert ps[|published|..] == [];
      NothingAdded(d, tables[d]);
    } else {
      TickPublishes(tables, published, n - 1, available, ok, d);
      var (ts', ps') := TickAll(tables, published, n - 1, available, ok);
      if available(n - 1) {
        var (rows, events) := Drain(n - 1, ts'[n - 1], WORKFLOW_DRAIN_BATCH, OkIn(ok, n - 1));
        assert ps[|published|..] == ps'[|published|..] + events;
        EventsInAppend(ps'[|published|..], events, d);
        DrainedDomain(n - 1, ts'[n - 1], OkIn(ok, n - 1), d);
        if d == n - 1 {
          NothingDelivered(d, tables[d]);
        }
      }
    }
  }

  lemma NothingAdded(d: nat, rows: seq<Row>)
    ensures EventsIn([], d) == NewlyDelivered(d, rows, rows)
  {
    NothingDelivered(d, rows);
  }

  lemma DrainedDomain(e: nat, rows: seq<Row>, ok: int -> bool, d: nat)
    ensures var (after, events) := Drain(e, rows, WORKFLOW_DRAIN_BATCH, ok);
            |after| == |rows| && EventsIn(events, d) == if d == e then NewlyDelivered(e, rows, after) else []
  {
    hide Drain, NewlyDelivered, EventsIn, EventRow;
    var events := Drain(e, rows, WORKFLOW_DRAIN_BATCH, ok).1;
    PublishedAreDelivered(e, rows, WORKFLOW_DRAIN_BATCH, ok);
    forall i | 0 <= i < |events| ensures events[i].domain == e {
      EventsOfDrain(e, rows, WORKFLOW_DRAIN_BATCH, ok, i);
    }
    EventsInOwn(events, e, d);
  }

  /** The row at `k` of domain `d` is delivered, and was not before. */
  ghost predicate NowDelivered(before: seq<seq<Row>>, after: seq<seq<Row>>, d: nat, k: nat) {
    && d < |after| && k < |after[d]| && after[d][k].status.Delivered?
    && !(d < |before| && k < |before[d]| && before[d][k].status.Delivered?)
  }

  ghost predicate HasEvent(events: seq<Event>, d: nat, id: int) {
    exists i :: 0 <= i < |events| && events[i].domain == d && events[i].id == id
  }

  lemma {:induction false} NewlyDeliveredIds(d: nat, before: seq<Row>, after: seq<Row>, k: nat)
    requires |before| == |after| && k < |before| && before[k].status != after[k].status
    ensures HasEvent(NewlyDelivered(d, before, after), d, before[k].id)
  {
    hide KindOf;
    var rest := NewlyDelivered(d, before[1..], after[1..]);
    var all := NewlyDelivered(d, before, after);
    var skip := |all| - |rest|;
    if k == 0 {
      assert all[0] == EventOf(d, before[0]);
    } else {
      NewlyDeliveredIds(d, before[1..], after[1..], k - 1);
      var i :| 0 <= i < |rest| && rest[i].domain == d && rest[i].id == before[k].id;
      assert all[skip + i] == rest[i];
    }
  }

  lemma {:induction false} EventsInHas(events: seq<Event>, d: nat, id: int)
    requires HasEvent(EventsIn(events, d), d, id)
    ensures HasEvent(events, d, id)
  {
    var front := EventsIn(events[..|events| - 1], d);
    var all := EventsIn(events, d);
    var i :| 0 <= i < |all| && all[i].domain == d && all[i].id == id;
    if i < |front| {
      assert front[i] == all[i];
      EventsInHas(events[..|events| - 1], d, id);
      var j :| 0 <= j < |events| - 1 && events[..|events| - 1][j].domain == d && events[..|events| - 1][j].id == id;
      assert events[j].domain == d && events[j].id == id;
    } else {
      assert events[|events| - 1].domain == d;
    }
  }

  /** What one step does to a row and to the published events. */
  lemma StepPublishes(s: State, op: Op, d: nat, k: nat)
    ensures s.published <= Step(s, op).published && |Step(s, op).tables| == |s.tables|
    ensures d < |s.tables| && k < |s.tables[d]| ==>
              k < |Step(s, op).tables[d]| && Step(s, op).tables[d][k].id == s.tables[d][k].id
              && (s.tables[d][k].status.Delivered? ==> Step(s, op).tables[d][k].status.Delivered?)
    ensures NowDelivered(s.tables, Step(s, op).tables, d, k) ==>
              HasEvent(Step(s, op).published[|s.published|..], d, Step(s, op).tables[d][k].id)
  {
    hide Drain, NewlyDelivered, EventsIn, Due, HasEvent;
    match op {
      case Tick(available, ok) =>
        TickKeepsPublished(s, available, ok);
        if d < |s.tables| {
          TickPublishes(s.tables, s.published, |s.tables|, available, ok, d);
          TickAllAt(s.tables, s.published, |s.tables|, available, ok, d);
          DrainKeeps(d, s.tables[d], WORKFLOW_DRAIN_BATCH, OkIn(ok, d));
          var (ts, ps) := TickAll(s.tables, s.published, |s.tables|, available, ok);
          if NowDelivered(s.tables, ts, d, k) {
            NewlyDeliveredIds(d, s.tables[d], ts[d], k);
            EventsInHas(ps[|s.published|..], d, ts[d][k].id);
          }
        }
      case Add(e, row) =>
    }
  }

  lemma {:induction false} TickPrefix(tables: seq<seq<Row>>, published: seq<Event>, n: nat, available: nat -> bool,
                                      ok: (nat, int) -> bool)
    requires n <= |tables|
    ensures published <= TickAll(tables, published, n, available, ok).1
  {
    hide Drain;
    if n > 0 {
      TickPrefix(tables, published, n - 1, available, ok);
    }
  }

  lemma TickKeepsPublished(s: State, available: nat -> bool, ok: (nat, int) -> bool)
    ensures s.published <= Step(s, Tick(available, ok)).published
  {
    hide Drain;
    TickPrefix(s.tables, s.published, |s.tables|, available, ok);
  }

  /** No delivery is silent: over every interleaving, each row delivered during the run, those
      enqueued during it included, has an event with its domain and id among those the run
      published. */
  lemma {:induction false} DeliveredArePublished(s: State, ops: seq<Op>, d: nat, k: nat)
    ensures var after := Run(s, ops);
            && s.published <= after.published && |after.tables| == |s.tables|
            && (d < |s.tables| && k < |s.tables[d]| ==> k < |after.tables[d]| && after.tables[d][k].id == s.tables[d][k].id)
            && (NowDelivered(s.tables, after.tables, d, k) ==>
                  HasEvent(after.published[|s.published|..], d, after.tables[d][k].id))
  {
    hide Step, HasEvent;
    if ops != [] {
      var mid, op := Run(s, ops[..|ops| - 1]), ops[|ops| - 1];
      var after := Step(mid, op);
      DeliveredArePublished(s, ops[..|ops| - 1], d, k);
      StepPublishes(mid, op, d, k);
      if NowDelivered(s.tables, after.tables, d, k) {
        var id := after.tables[d][k].id;
        if NowDelivered(mid.tables, after.tables, d, k) {
          HasEventLater(after.published[|s.published|..], after.published[|mid.published|..], d, id);
        } else {
          HasEventMore(mid.published[|s.published|..], after.published[|s.published|..], d, id);
        }
      }
    }
  }

  lemma HasEventLater(all: seq<Event>, tail: seq<Event>, d: nat, id: int)
    requires |tail| <= |all| && tail == all[|all| - |tail|..] && HasEvent(tail, d, id)
    ensures HasEvent(all, d, id)
  {
    var i :| 0 <= i < |tail| && tail[i].domain == d && tail[i].id == id;
    assert all[|all| - |tail| + i] == tail[i];
  }

  lemma HasEventMore(front: seq<Event>, all: seq<Event>, d: nat, id: int)
    requires front <= all && HasEvent(front, d, id)
    ensures HasEvent(all, d, id)
  {
    var i :| 0 <= i < |front| && front[i].domain == d && front[i].id == id;
    assert all[i] == front[i];
  }

  // ---- delivered in time, over every run ----

  /** What a tick does to one domain's table. */
  lemma {:induction false} TickAllAt(tables: seq<seq<Row>>, published: seq<Event>, n: nat, available: nat -> bool,
                                     ok: (nat, int) -> bool, d: nat)
    requires d < n <= |tables|
    ensures TickAll(tables, published, n, available, ok).0[d]
         == if available(d) then Drain(d, tables[d], WORKFLOW_DRAIN_BATCH, OkIn(ok, d)).0 else tables[d]
  {
    hide Drain;
    if d < n - 1 {
      TickAllAt(tables, published, n - 1, available, ok, d);
    }
  }

  /** Every tick that reaches domain `d` delivers whatever it selects there. */
  ghost predicate Delivers(ops: seq<Op>, d: nat) {
    forall i, id :: 0 <= i < |ops| && ops[i].Tick? ==> ops[i].ok(d, id)
  }

  /** The ticks that found the pool of domain `d` available. */
  function Ticks(ops: seq<Op>, d: nat): nat {
    if ops == [] then 0
    else Ticks(ops[..|ops| - 1], d) + (if ops[|ops| - 1].Tick? && ops[|ops| - 1].available(d) then 1 else 0)
  }

  function Less(n: nat, m: nat): nat { if n <= m then 0 else n - m }

  /** One step, seen by the first `n` rows of a table. */
  lemma StepPrefix(s: State, op: Op, d: nat, n: nat)
    requires d < |s.tables| && n <= |s.tables[d]| && (op.Tick? ==> forall id :: op.ok(d, id))
    ensures var after := Step(s, op).tables;
            && |after| == |s.tables| && n <= |after[d]|
            && |Waiting(after[d][..n])|
               == Less(|Waiting(s.tables[d][..n])|, if op.Tick? && op.available(d) then WORKFLOW_DRAIN_BATCH else 0)
  {
    hide Drain, TickAll, DueCount, Waiting;
    var rows := s.tables[d];
    DueCountIs(rows[..n]);
    match op {
      case Tick(available, ok) =>
        TickAllAt(s.tables, s.published, |s.tables|, available, ok, d);
        if available(d) {
          assert rows[..n] + rows[n..] == rows;
          DrainPrefix(d, rows[..n], rows[n..], WORKFLOW_DRAIN_BATCH, OkIn(ok, d));
          DrainProgress(d, rows[..n], WORKFLOW_DRAIN_BATCH, OkIn(ok, d));
          DueCountIs(Drain(d, rows[..n], WORKFLOW_DRAIN_BATCH, OkIn(ok, d)).0);
        }
      case Add(e, row) =>
        assert (rows + [row])[..n] == rows[..n];
    }
  }

  /** With deliveries succeeding, the rows of a domain that are due now drain a batch of 100
      at each tick that finds the domain available, however enqueues and the other domains
      interleave: n due rows are all delivered after ceil(n / 100) such ticks, and no sooner. */
  lemma {:induction false} DrainedInTime(s: State, ops: seq<Op>, d: nat)
    requires d < |s.tables| && Delivers(ops, d)
    ensures var n := |s.tables[d]|;
            var after := Run(s, ops).tables;
            && |after| == |s.tables| && n <= |after[d]|
            && |Waiting(after[d][..n])| == Less(|Waiting(s.tables[d])|, 100 * Ticks(ops, d))
  {
    hide Step, Waiting;
    if ops == [] {
      assert s.tables[d][..|s.tables[d]|] == s.tables[d];
    } else {
      var front, op := ops[..|ops| - 1], ops[|ops| - 1];
      assert forall i :: 0 <= i < |front| ==> front[i] == ops[i];
      DrainedInTime(s, front, d);
      StepPrefix(Run(s, front), op, d, |s.tables[d]|);
    }
  }

  // ---- at most once, over every run ----

  /** No row published twice, and every published row is delivered. */
  ghost predicate AtMostOnce(s: State) {
    && (forall i, j :: 0 <= i < j < |s.published| ==>
          s.published[i].domain != s.published[j].domain || s.published[i].id != s.published[j].id)
    && (forall i :: 0 <= i < |s.published| ==> PublishedRow(s.tables, s.published[i]))
    && (forall d :: 0 <= d < |s.tables| ==> IdOrder(s.tables[d]))
  }

  ghost predicate PublishedRow(tables: seq<seq<Row>>, e: Event) {
    e.domain < |tables|
    && exists k :: 0 <= k < |tables[e.domain]| && tables[e.domain][k].id == e.id
                   && tables[e.domain][k].status.Delivered? && Matches(tables[e.domain][k].topic)
  }

  /** The row an event was published for: due before, delivered after. */
  ghost predicate EventRow(before: seq<Row>, after: seq<Row>, e: Event) {
    |before| == |after|
    && exists k :: 0 <= k < |before| && before[k].id == e.id && Due(before[k])
                   && after[k] == before[k].(status := Delivered) && Announces(e, before[k])
  }

  /** The event names the row's run, topic and parent, and is of the trusted kind only with the kernel's key. */
  predicate Announces(e: Event, r: Row) {
    && e.runId == r.runId && e.topic == r.topic && e.parent == r.parent
    && (e.kind.ValetDue? <==> "workflow/valet" <= r.topic && "valet-" <= r.key)
  }

  lemma EventRowTail(r: Row, r': Row, before: seq<Row>, after: seq<Row>, e: Event)
    requires EventRow(before, after, e)
    ensures EventRow([r] + before, [r'] + after, e)
  {
    hide Due;
    var k :| 0 <= k < |before| && before[k].id == e.id && Due(before[k]) && after[k] == before[k].(status := Delivered)
             && Announces(e, before[k]);
    assert ([r] + before)[k + 1] == before[k] && ([r'] + after)[k + 1] == after[k];
  }

  lemma EventRowHead(domain: nat, r: Row, before: seq<Row>, after: seq<Row>)
    requires Due(r) && |before| == |after|
    ensures EventRow([r] + before, [r.(status := Delivered)] + after, EventOf(domain, r))
  {
    assert ([r] + before)[0] == r && ([r.(status := Delivered)] + after)[0] == r.(status := Delivered);
  }

  lemma {:induction false} EventsOfDrain(domain: nat, rows: seq<Row>, budget: nat, ok: int -> bool, i: nat)
    requires i < |Drain(domain, rows, budget, ok).1|
    ensures var (after, events) := Drain(domain, rows, budget, ok);
            events[i].domain == domain && EventRow(rows, after, events[i])
    decreases |rows|
  {
    hide EventRow, Due;
    var r, rest := rows[0], rows[1..];
    assert rows == [r] + rest;
    var left := if Due(r) && budget > 0 then budget - 1 else budget;
    var own := Due(r) && budget > 0 && ok(r.id);
    var (after', events') := Drain(domain, rest, left, ok);
    DrainKeeps(domain, rest, left, ok);
    if own && i == 0 {
      EventRowHead(domain, r, rest, after');
    } else {
      var i' := if own then i - 1 else i;
      EventsOfDrain(domain, rest, left, ok, i');
      EventRowTail(r, if own then r.(status := Delivered) else r, rest, after', events'[i']);
    }
  }

  ghost predicate IncreasingIds(events: seq<Event>) {
    forall i, j :: 0 <= i < j < |events| ==> events[i].id < events[j].id
  }

  /** Within a tick a domain's events are in increasing id order. */
  lemma {:induction false} EventsInIdOrder(domain: nat, rows: seq<Row>, budget: nat, ok: int -> bool)
    requires IdOrder(rows)
    ensures IncreasingIds(Drain(domain, rows, budget, ok).1)
    decreases |rows|
  {
    hide Due;
    if rows != [] {
      var r, rest := rows[0], rows[1..];
      var left := if Due(r) && budget > 0 then budget - 1 else budget;
      EventsInIdOrder(domain, rest, left, ok);
      var (after', events') := Drain(domain, rest, left, ok);
      forall j | 0 <= j < |events'| ensures r.id < events'[j].id {
        EventsOfDrain(domain, rest, left, ok, j);
        var k :| 0 <= k < |rest| && rest[k].id == events'[j].id;
        assert rows[k + 1] == rest[k];
      }
      assert IncreasingIds([EventOf(domain, r)] + events');
    }
  }

  lemma DrainAtMostOnce(s: State, domain: nat, ok: int -> bool)
    requires AtMostOnce(s) && domain < |s.tables|
    ensures var (rows, events) := Drain(domain, s.tables[domain], WORKFLOW_DRAIN_BATCH, ok);
            AtMostOnce(State(s.tables[domain := rows], s.published + events))
  {
    hide Drain, Due, Matches, EventRow;
    var before := s.tables[domain];
    EventsInIdOrder(domain, before, WORKFLOW_DRAIN_BATCH, ok);
    var (rows, events) := Drain(domain, before, WORKFLOW_DRAIN_BATCH, ok);
    var next := State(s.tables[domain := rows], s.published + events);
    DrainKeeps(domain, before, WORKFLOW_DRAIN_BATCH, ok);
    forall i | 0 <= i < |s.published| ensures PublishedRow(next.tables, s.published[i]) {
      KeptPublished(s.tables, domain, rows, s.published[i]);
    }
    forall i | 0 <= i < |events|
      ensures PublishedRow(next.tables, events[i]) && events[i].domain == domain
      ensures forall j :: 0 <= j < |s.published| ==> s.published[j].domain != domain || s.published[j].id != events[i].id
    {
      EventsOfDrain(domain, before, WORKFLOW_DRAIN_BATCH, ok, i);
      FreshEvent(s, domain, rows, events[i]);
    }
  }

  lemma KeptPublished(tables: seq<seq<Row>>, domain: nat, rows: seq<Row>, e: Event)
    requires domain < |tables| && |rows| == |tables[domain]| && PublishedRow(tables, e)
    requires forall i :: 0 <= i < |rows| ==>
               rows[i] == tables[domain][i] || (Due(tables[domain][i]) && rows[i] == tables[domain][i].(status := Delivered))
    ensures PublishedRow(tables[domain := rows], e)
  {
    hide Matches;
    var k :| 0 <= k < |tables[e.domain]| && tables[e.domain][k].id == e.id
             && tables[e.domain][k].status.Delivered? && Matches(tables[e.domain][k].topic);
    assert tables[domain := rows][e.domain][k].id == e.id;
  }

  lemma FreshEvent(s: State, domain: nat, rows: seq<Row>, e: Event)
    requires AtMostOnce(s) && domain < |s.tables| && |rows| == |s.tables[domain]| && e.domain == domain
    requires EventRow(s.tables[domain], rows, e)
    ensures PublishedRow(s.tables[domain := rows], e)
    ensures forall j :: 0 <= j < |s.published| ==> s.published[j].domain != domain || s.published[j].id != e.id
  {
    hide Matches;
    var k :| 0 <= k < |rows| && s.tables[domain][k].id == e.id && Due(s.tables[domain][k])
             && rows[k] == s.tables[domain][k].(status := Delivered);
    assert s.tables[domain := rows][domain][k].status.Delivered?;
    forall j | 0 <= j < |s.published| && s.published[j].domain == domain ensures s.published[j].id != e.id {
      assert PublishedRow(s.tables, s.published[j]);
      var l :| 0 <= l < |s.tables[domain]| && s.tables[domain][l].id == s.published[j].id
               && s.tables[domain][l].status.Delivered?;
      assert l != k;
    }
  }

  lemma {:induction false} TickAtMostOnce(s: State, n: nat, available: nat -> bool, ok: (nat, int) -> bool)
    requires AtMostOnce(s) && n <= |s.tables|
    ensures var (ts, ps) := TickAll(s.tables, s.published, n, available, ok); AtMostOnce(State(ts, ps))
  {
    hide AtMostOnce, Drain;
    if n > 0 {
      TickAtMostOnce(s, n - 1, available, ok);
      var (ts, ps) := TickAll(s.tables, s.published, n - 1, available, ok);
      DrainAtMostOnce(State(ts, ps), n - 1, OkIn(ok, n - 1));
    }
  }

  lemma AddAtMostOnce(s: State, d: nat, row: Row)
    requires AtMostOnce(s) && CanAdd(s, d, row)
    ensures AtMostOnce(s.(tables := s.tables[d := s.tables[d] + [row]]))
  {
    hide Matches;
    var ts := s.tables[d := s.tables[d] + [row]];
    forall i | 0 <= i < |s.published| ensures PublishedRow(ts, s.published[i]) {
      var e := s.published[i];
      var k :| 0 <= k < |s.tables[e.domain]| && s.tables[e.domain][k].id == e.id
               && s.tables[e.domain][k].status.Delivered? && Matches(s.tables[e.domain][k].topic);
      assert ts[e.domain][k] == s.tables[e.domain][k];
    }
  }

  /** Over every interleaving of enqueues and ticks, with any deliveries failing, no row is
      ever published twice, and only delivered rows with a matching topic are published. */
  lemma {:induction false} PublishedAtMostOnce(s: State, ops: seq<Op>)
    requires AtMostOnce(s)
    ensures AtMostOnce(Run(s, ops))
  {
    hide AtMostOnce;
    if ops != [] {
      PublishedAtMostOnce(s, ops[..|ops| - 1]);
      var mid := Run(s, ops[..|ops| - 1]);
      match ops[|ops| - 1] {
        case Tick(available, ok) => TickAtMostOnce(mid, |mid.tables|, available, ok);
        case Add(d, row) => if CanAdd(mid, d, row) { AddAtMostOnce(mid, d, row); }
      }
    }
  }
}
