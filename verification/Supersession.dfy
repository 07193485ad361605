/**
 Supersession of knowledge chunks (src/consolidate.rs): typed links, expiry
 through `valid_to`, legal holds and the audit log, with the apply and undo
 handlers that drive them. Tables are maps, sets and sequences; foreign keys
 are enforced, as the server's connection pool does.
 */
module Supersession {
  import opened Common

  type ChunkId = int
  type Time = int

  datatype LinkKind = Supports | Supersedes | Contradicts | References | DerivedFrom | Unknown(name: string)

  datatype Link = Link(from: ChunkId, to: ChunkId, kind: LinkKind)

  datatype Row = Row(validFrom: Option<Time>, validTo: Option<Time>, contentHash: Option<string>)

  datatype Hold = Hold(chunk: ChunkId, released: bool)

  datatype AuditRow = AuditRow(target: string, action: string)

  datatype Error = InvalidKind | SelfReferential | LegalHoldActive | ForeignKey

  type Outcome = Result<nat, Error>

  datatype Db = Db(rows: map<ChunkId, Row>, links: set<Link>, holds: seq<Hold>, audit: seq<AuditRow>)

  // ---- what the tables mean ----

  predicate Held(db: Db, id: ChunkId) {
    exists i :: 0 <= i < |db.holds| && db.holds[i] == Hold(id, false)
  }

  /** Some chunk supersedes `id`: the link graph's notion of "not current". */
  predicate Superseded(links: set<Link>, id: ChunkId) {
    exists l :: l in links && l.kind.Supersedes? && l.to == id
  }

  /** Some chunk is superseded by `id`. */
  predicate Supersedor(links: set<Link>, id: ChunkId) {
    exists l :: l in links && l.kind.Supersedes? && l.from == id
  }

  /** `valid_to` is set: the bi-temporal notion of "not current". */
  predicate Expired(db: Db, id: ChunkId) { id in db.rows && db.rows[id].validTo.Some? }

  /** The two notions agree on every existing chunk. */
  ghost predicate Agree(db: Db) {
    forall id :: id in db.rows ==> (Expired(db, id) <==> Superseded(db.links, id))
  }

  /** Foreign keys: both ends of every link exist. */
  ghost predicate LinksExist(db: Db) {
    forall l :: l in db.links ==> l.from in db.rows && l.to in db.rows
  }

  /** Recall as of the instant `at`: the valid interval contains it. */
  predicate VisibleAt(db: Db, id: ChunkId, at: Time) {
    && id in db.rows
    && (db.rows[id].validFrom.None? || db.rows[id].validFrom.value <= at)
    && (db.rows[id].validTo.None? || db.rows[id].validTo.value > at)
  }

  /** Default recall. */
  predicate Current(db: Db, id: ChunkId) { id in db.rows && db.rows[id].validTo.None? }

  function HashOf(db: Db, id: ChunkId): string {
    if id in db.rows && db.rows[id].contentHash.Some? then db.rows[id].contentHash.value else "unknown"
  }

  /** The audit insert runs in its own savepoint: it may fail without failing the operation. */
  function Record(db: Db, row: AuditRow, auditOk: bool): Db {
    if auditOk then db.(audit := db.audit + [row]) else db
  }

  // ---- the operations as functions of the tables ----

  function LinkEvidence(db: Db, from: ChunkId, to: ChunkId, kind: LinkKind): (Db, Outcome) {
    var l := Link(from, to, kind);
    if kind.Unknown? then (db, Err(InvalidKind))
    else if from == to then (db, Err(SelfReferential))
    else if l in db.links then (db, Ok(0))
    else if from !in db.rows || to !in db.rows then (db, Err(ForeignKey))
    else (db.(links := db.links + {l}), Ok(1))
  }

  function ExpireRow(db: Db, id: ChunkId, now: Time): Db {
    if Current(db, id) then db.(rows := db.rows[id := db.rows[id].(validTo := Some(now))]) else db
  }

  function Resolve(db: Db, from: ChunkId, to: ChunkId, now: Time, auditOk: bool): (Db, Outcome) {
    if from == to then (db, Err(SelfReferential))
    else if Held(db, to) then (db, Err(LegalHoldActive))
    else
      var (linked, r) := LinkEvidence(db, from, to, Supersedes);
      if r.Err? then (db, r)
      else if Current(linked, to) then
        (Record(ExpireRow(linked, to, now), AuditRow(HashOf(linked, to), "supersession"), auditOk), Ok(1))
      else (linked, Ok(0))
  }

  /** The links that survive an undo: all but the incoming supersessions of `loser`. */
  function WithoutIncoming(links: set<Link>, loser: ChunkId): set<Link> {
    set l | l in links && !(l.to == loser && l.kind.Supersedes?)
  }

  function Undo(db: Db, loser: ChunkId, auditOk: bool): (Db, nat) {
    var cleared := if Expired(db, loser) then 1 else 0;
    var rows := if Expired(db, loser) then db.rows[loser := db.rows[loser].(validTo := None)] else db.rows;
    var links := WithoutIncoming(db.links, loser);
    var unlinked := |db.links - links|;
    var next := db.(rows := rows, links := links);
    (if cleared > 0 || unlinked > 0 then Record(next, AuditRow(HashOf(db, loser), "undo_supersession"), auditOk) else next,
     cleared + unlinked)
  }

  /** The apply handler: only `supersedes` resolves, other kinds just link. */
  function ApplyLink(db: Db, l: Link, now: Time, auditOk: bool): (Db, Outcome) {
    if l.kind.Supersedes? then Resolve(db, l.from, l.to, now, auditOk)
    else LinkEvidence(db, l.from, l.to, l.kind)
  }

  function HeldAmong(db: Db, ids: seq<ChunkId>): set<ChunkId> { set id | id in ids && Held(db, id) }

  function LinksWithout(links: set<Link>, ids: seq<ChunkId>): set<Link> {
    set l | l in links && l.from !in ids && l.to !in ids
  }

  function RowsWithout(rows: map<ChunkId, Row>, ids: seq<ChunkId>): map<ChunkId, Row> {
    map id | id in rows && id !in ids :: rows[id]
  }

  /** Erasing a list of chunks removes their rows and every link that touches one; if any of
      them is held, the whole list is refused. */
  function Purge(db: Db, ids: seq<ChunkId>): (Db, Outcome) {
    if HeldAmong(db, ids) != {} then (db, Err(LegalHoldActive))
    else
      (db.(rows := RowsWithout(db.rows, ids), links := LinksWithout(db.links, ids)),
       Ok(|Erased(db.rows, ids)|))
  }

  function Erased(rows: map<ChunkId, Row>, ids: seq<ChunkId>): set<ChunkId> { set id | id in rows && id in ids }

  // ---- the operations as programs over the store ----

  class Store {
    var rows: map<ChunkId, Row>
    var links: set<Link>
    var holds: seq<Hold>
    var audit: seq<AuditRow>

    ghost function View(): Db
      reads this
    {
      Db(rows, links, holds, audit)
    }

    constructor (db: Db)
      ensures View() == db
    {
      rows, links, holds, audit := db.rows, db.links, db.holds, db.audit;
    }

    /** Which of some chunks are under an active hold. */
    method HeldScan(ids: seq<ChunkId>) returns (held: set<ChunkId>)
      ensures held == HeldAmong(View(), ids)
    {
      held := {};
      if ids == [] {
        return;
      }
      for i := 0 to |holds|
        invariant forall id :: id in held <==> id in ids && exists k :: 0 <= k < i && holds[k] == Hold(id, false)
      {
        if !holds[i].released && holds[i].chunk in ids {
          assert holds[i] == Hold(holds[i].chunk, false);
          held := held + {holds[i].chunk};
        }
      }
      ghost var db := View();
      assert db.holds == holds;
      forall id ensures id in held <==> id in HeldAmong(db, ids) {
        assert Held(db, id) <==> exists k :: 0 <= k < |holds| && holds[k] == Hold(id, false);
      }
    }

    method AddLink(from: ChunkId, to: ChunkId, kind: LinkKind) returns (r: Outcome)
      modifies this
      ensures (View(), r) == old(LinkEvidence(View(), from, to, kind))
    {
      if kind.Unknown? {
        return Err(InvalidKind);
      }
      if from == to {
        return Err(SelfReferential);
      }
      var l := Link(from, to, kind);
      if l in links {
        return Ok(0);
      }
      if from !in rows || to !in rows {
        return Err(ForeignKey);
      }
      links := links + {l};
      return Ok(1);
    }

    method ResolveSupersession(from: ChunkId, to: ChunkId, now: Time, auditOk: bool) returns (r: Outcome)
      modifies this
      ensures (View(), r) == old(Resolve(View(), from, to, now, auditOk))
    {
      if from == to {
        return Err(SelfReferential);
      }
      var held := HeldScan([to]);
      assert to in HeldAmong(View(), [to]) <==> Held(View(), to);
      if held != {} {
        return Err(LegalHoldActive);
      }
      r := AddLink(from, to, Supersedes);
      if r.Err? {
        return;
      }
      var expired := 0;
      if to in rows && rows[to].validTo.None? {
        rows := rows[to := rows[to].(validTo := Some(now))];
        expired := 1;
      }
      if expired > 0 && auditOk {
        var target := if rows[to].contentHash.Some? then rows[to].contentHash.value else "unknown";
        audit := audit + [AuditRow(target, "supersession")];
      }
      r := Ok(expired);
    }

    method UndoSupersession(oldChunk: ChunkId, auditOk: bool) returns (changes: nat)
      modifies this
      ensures (View(), changes) == old(Undo(View(), oldChunk, auditOk))
    {
      var cleared := 0;
      if oldChunk in rows && rows[oldChunk].validTo.Some? {
        rows := rows[oldChunk := rows[oldChunk].(validTo := None)];
        cleared := 1;
      }
      var kept := set l | l in links && !(l.to == oldChunk && l.kind.Supersedes?);
      var unlinked := |links - kept|;
      links := kept;
      if (cleared > 0 || unlinked > 0) && auditOk {
        var target := if oldChunk in rows && rows[oldChunk].contentHash.Some?
                      then rows[oldChunk].contentHash.value else "unknown";
        audit := audit + [AuditRow(target, "undo_supersession")];
      }
      changes := cleared + unlinked;
    }

    /** Erasure of a list of chunks, as far as these tables go; a repeated or unknown id
        deletes nothing. Returns the number of chunks erased. */
    method PurgeChunkIds(ids: seq<ChunkId>) returns (r: Outcome)
      modifies this
      ensures (View(), r) == old(Purge(View(), ids))
    {
      var held := HeldScan(ids);
      if held != {} {
        return Err(LegalHoldActive);
      }
      var purged := 0;
      for i := 0 to |ids|
        invariant holds == old(holds) && audit == old(audit)
        invariant rows == RowsWithout(old(rows), ids[..i]) && links == LinksWithout(old(links), ids[..i])
        invariant purged == |Erased(old(rows), ids[..i])|
      {
        assert ids[..i + 1] == ids[..i] + [ids[i]];
        links := set l | l in links && l.from != ids[i] && l.to != ids[i];
        ErasedPush(old(rows), ids[..i], ids[i]);
        if ids[i] in rows {
          purged := purged + 1;
        }
        rows := rows - {ids[i]};
      }
      assert ids[..|ids|] == ids;
      return Ok(purged);
    }

    /** The apply handler's loop: each link is applied or rejected on its own. */
    method ApplyAll(batch: seq<Link>, now: Time, auditOk: bool) returns (recorded: nat, rejected: seq<Link>)
      modifies this
      ensures (View(), recorded, rejected) == old(ApplyBatch(View(), batch, now, auditOk))
    {
      recorded, rejected := 0, [];
      for i := 0 to |batch|
        invariant (View(), recorded, rejected) == old(ApplyBatch(View(), batch[..i], now, auditOk))
      {
        assert batch[..i + 1][..i] == batch[..i];
        var l := batch[i];
        var r: Outcome;
        if l.kind.Supersedes? {
          r := ResolveSupersession(l.from, l.to, now, auditOk);
        } else {
          r := AddLink(l.from, l.to, l.kind);
        }
        if r.Err? {
          rejected := rejected + [l];
        } else {
          recorded := recorded + r.value;
        }
      }
      assert batch[..|batch|] == batch;
    }
  }

  function ApplyBatch(db: Db, batch: seq<Link>, now: Time, auditOk: bool): (Db, nat, seq<Link>) {
    if batch == [] then (db, 0, [])
    else
      var last := batch[|batch| - 1];
      var (mid, recorded, rejected) := ApplyBatch(db, batch[..|batch| - 1], now, auditOk);
      var (next, r) := ApplyLink(mid, last, now, auditOk);
      if r.Err? then (next, recorded, rejected + [last]) else (next, recorded + r.value, rejected)
  }

  lemma ErasedPush(rows: map<ChunkId, Row>, ids: seq<ChunkId>, id: ChunkId)
    ensures |Erased(rows, ids + [id])| == |Erased(rows, ids)| + (if id in rows && id !in ids then 1 else 0)
  {
    assert Erased(rows, ids + [id]) == Erased(rows, ids) + (if id in rows then {id} else {});
  }

  /** A link an apply refuses, judged on the tables before anything is applied. */
  predicate Unacceptable(db: Db, l: Link) {
    l.kind.Unknown? || l.from == l.to || l.from !in db.rows || l.to !in db.rows || (l.kind.Supersedes? && Held(db, l.to))
  }

  function UnacceptableOf(db: Db, batch: seq<Link>): seq<Link> {
    if batch == [] then []
    else UnacceptableOf(db, batch[..|batch| - 1])
         + (if Unacceptable(db, batch[|batch| - 1]) then [batch[|batch| - 1]] else [])
  }

  /** The chunks a change of the tables expired. */
  function NewlyExpired(db: Db, after: Db): set<ChunkId> {
    set id | id in db.rows && Current(db, id) && !Current(after, id)
  }

  /** The links other than supersessions that a change of the tables added. */
  function NewPlainLinks(db: Db, after: Db): set<Link> {
    set l | l in after.links && l !in db.links && !l.kind.Supersedes?
  }

  /** A batch is a run of single applies, so what holds of runs holds of batches. The links
      rejected are exactly those unacceptable at the start, in order: no link of a batch makes
      another acceptable or not. The count returned is the chunks newly expired plus the links
      newly recorded for the other kinds, each once however often the batch repeats it. */
  lemma {:induction false} BatchIsRun(db: Db, batch: seq<Link>, now: Time, auditOk: bool)
    requires LinksExist(db)
    ensures var (after, recorded, rejected) := ApplyBatch(db, batch, now, auditOk);
            && after == Run(db, ApplyOps(batch, now, auditOk))
            && rejected == UnacceptableOf(db, batch)
            && recorded == |NewlyExpired(db, after)| + |NewPlainLinks(db, after)|
            && SameFrame(db, after)
  {
    hide ApplyLink, LinksExist, Unacceptable, NewlyExpired, NewPlainLinks, SameFrame, Step;
    if batch == [] {
      NothingNew(db);
    } else {
      var front, last := batch[..|batch| - 1], batch[|batch| - 1];
      BatchIsRun(db, front, now, auditOk);
      var ops := ApplyOps(batch, now, auditOk);
      assert ops[..|ops| - 1] == ApplyOps(front, now, auditOk);
      var mid := ApplyBatch(db, front, now, auditOk).0;
      ApplyStep(mid, last, now, auditOk);
      ApplyCounts(db, mid, last, now, auditOk);
    }
  }

  lemma ApplyStep(db: Db, l: Link, now: Time, auditOk: bool)
    ensures Step(db, Apply(l, now, auditOk)) == ApplyLink(db, l, now, auditOk).0
  {
  }

  /** What no apply touches: the chunks that exist, the holds; and applying only adds links
      and only expires. */
  ghost predicate SameFrame(db: Db, after: Db) {
    && after.rows.Keys == db.rows.Keys && after.holds == db.holds && db.links <= after.links
    && LinksExist(after)
    && forall id :: id in db.rows && Current(after, id) ==> Current(db, id)
  }

  lemma NothingNew(db: Db)
    requires LinksExist(db)
    ensures NewlyExpired(db, db) == {} && NewPlainLinks(db, db) == {} && SameFrame(db, db)
  {
  }

  /** One apply in closed form. */
  lemma ApplyExact(db: Db, l: Link, now: Time, auditOk: bool)
    requires LinksExist(db)
    ensures var (after, r) := ApplyLink(db, l, now, auditOk);
            && (r.Err? <==> Unacceptable(db, l)) && after.holds == db.holds
            && (r.Err? ==> after == db)
            && (r.Ok? ==>
                  && after.links == db.links + {l} && after.rows.Keys == db.rows.Keys
                  && (forall id :: Current(after, id) <==> Current(db, id) && !(l.kind.Supersedes? && id == l.to))
                  && r.value == if l.kind.Supersedes? then if Current(db, l.to) then 1 else 0
                                else if l in db.links then 0 else 1)
  {
    hide Held;
    if l in db.links { assert db.links + {l} == db.links; }
  }

  lemma ApplyCounts(db: Db, mid: Db, l: Link, now: Time, auditOk: bool)
    requires LinksExist(db) && SameFrame(db, mid)
    ensures var (after, r) := ApplyLink(mid, l, now, auditOk);
            && SameFrame(db, after)
            && (r.Err? <==> Unacceptable(db, l))
            && |NewlyExpired(db, after)| + |NewPlainLinks(db, after)|
               == |NewlyExpired(db, mid)| + |NewPlainLinks(db, mid)| + (if r.Ok? then r.value else 0)
  {
    hide ApplyLink, Current, Held;
    var (after, r) := ApplyLink(mid, l, now, auditOk);
    ApplyExact(mid, l, now, auditOk);
    SameHeld(db, mid, l.to);
    hide SameFrame, NewlyExpired, NewPlainLinks;
    if r.Ok? {
      assert SameFrame(db, after) by { FrameKept(db, mid, after, l); }
      ExpiredCounts(db, mid, after, l);
      PlainCounts(db, mid, after, l);
    }
  }

  lemma FrameKept(db: Db, mid: Db, after: Db, l: Link)
    requires SameFrame(db, mid) && after.links == mid.links + {l} && after.rows.Keys == mid.rows.Keys
    requires after.holds == mid.holds && l.from in mid.rows && l.to in mid.rows
    requires forall id :: Current(after, id) ==> Current(mid, id)
    ensures SameFrame(db, after)
  {
    hide Current;
  }

  lemma ExpiredCounts(db: Db, mid: Db, after: Db, l: Link)
    requires SameFrame(db, mid)
    requires forall id :: Current(after, id) <==> Current(mid, id) && !(l.kind.Supersedes? && id == l.to)
    ensures |NewlyExpired(db, after)|
         == |NewlyExpired(db, mid)| + (if l.kind.Supersedes? && Current(mid, l.to) then 1 else 0)
  {
    assert NewlyExpired(db, after)
        == NewlyExpired(db, mid) + (if l.kind.Supersedes? && Current(mid, l.to) then {l.to} else {});
  }

  lemma PlainCounts(db: Db, mid: Db, after: Db, l: Link)
    requires db.links <= mid.links && after.links == mid.links + {l}
    ensures |NewPlainLinks(db, after)|
         == |NewPlainLinks(db, mid)| + (if l.kind.Supersedes? || l in mid.links then 0 else 1)
  {
    assert NewPlainLinks(db, after)
        == NewPlainLinks(db, mid) + (if l.kind.Supersedes? || l in mid.links then {} else {l});
  }

  lemma SameHeld(db: Db, db': Db, id: ChunkId)
    requires db.holds == db'.holds
    ensures Held(db, id) <==> Held(db', id)
  {
  }

  function ApplyOps(batch: seq<Link>, now: Time, auditOk: bool): seq<Op> {
    seq(|batch|, i requires 0 <= i < |batch| => Apply(batch[i], now, auditOk))
  }

  // ---- runs ----

  datatype Op =
    | Apply(link: Link, now: Time, auditOk: bool)
    | UndoOf(loser: ChunkId, auditOk: bool)
    | PlaceHold(chunk: ChunkId)
    | ReleaseHold(index: nat)

  function Step(db: Db, op: Op): Db {
    match op
    case Apply(l, now, ok) => ApplyLink(db, l, now, ok).0
    case UndoOf(loser, ok) => Undo(db, loser, ok).0
    case PlaceHold(id) => if id in db.rows then db.(holds := db.holds + [Hold(id, false)]) else db
    case ReleaseHold(i) =>
      if i < |db.holds| then db.(holds := db.holds[i := db.holds[i].(released := true)]) else db
  }

  function Run(db: Db, ops: seq<Op>): Db {
    if ops == [] then db else Step(Run(db, ops[..|ops| - 1]), ops[|ops| - 1])
  }

  /** Where the inserts and deletes leave the supersession graph. */
  lemma SupersededAfterLink(links: set<Link>, l: Link, id: ChunkId)
    ensures Superseded(links + {l}, id) <==> Superseded(links, id) || (l.kind.Supersedes? && l.to == id)
  {
    if l.kind.Supersedes? && l.to == id {
      assert l in links + {l};
    }
    if Superseded(links, id) {
      var w :| w in links && w.kind.Supersedes? && w.to == id;
      assert w in links + {l};
    }
  }

  lemma SupersededAfterUndo(links: set<Link>, loser: ChunkId, id: ChunkId)
    ensures Superseded(WithoutIncoming(links, loser), id) <==> Superseded(links, id) && id != loser
  {
    if Superseded(links, id) && id != loser {
      var w :| w in links && w.kind.Supersedes? && w.to == id;
      assert w in WithoutIncoming(links, loser);
    }
  }

  lemma AgreeApply(db: Db, l: Link, now: Time, auditOk: bool)
    requires Agree(db)
    ensures Agree(ApplyLink(db, l, now, auditOk).0)
  {
    var next := ApplyLink(db, l, now, auditOk).0;
    forall id | id in next.rows ensures Expired(next, id) <==> Superseded(next.links, id) {
      SupersededAfterLink(db.links, l, id);
      assert id in db.rows;
      if l in db.links { assert db.links + {l} == db.links; }
    }
  }

  lemma AgreeUndo(db: Db, loser: ChunkId, auditOk: bool)
    requires Agree(db)
    ensures Agree(Undo(db, loser, auditOk).0)
  {
    var next := Undo(db, loser, auditOk).0;
    forall id | id in next.rows ensures Expired(next, id) <==> Superseded(next.links, id) {
      SupersededAfterUndo(db.links, loser, id);
      assert id in db.rows;
    }
  }

  /** Over every run of applies, undos and hold changes, refused ones included, the two
      notions of "current" stay in agreement, and every link keeps both of its ends. */
  lemma {:induction false} AgreementPreserved(db: Db, ops: seq<Op>)
    requires Agree(db) && LinksExist(db)
    ensures Agree(Run(db, ops)) && LinksExist(Run(db, ops))
    ensures Run(db, ops).rows.Keys == db.rows.Keys
  {
    hide Agree, LinksExist, Step;
    if ops != [] {
      AgreementPreserved(db, ops[..|ops| - 1]);
      AgreeStep(Run(db, ops[..|ops| - 1]), ops[|ops| - 1]);
      LinksExistStep(Run(db, ops[..|ops| - 1]), ops[|ops| - 1]);
    }
  }

  lemma AgreeStep(db: Db, op: Op)
    requires Agree(db)
    ensures Agree(Step(db, op))
  {
    hide Agree, Undo, ApplyLink;
    match op {
      case Apply(l, now, ok) => AgreeApply(db, l, now, ok);
      case UndoOf(loser, ok) => AgreeUndo(db, loser, ok);
      case PlaceHold(id) => AgreeHolds(db, Step(db, op));
      case ReleaseHold(i) => AgreeHolds(db, Step(db, op));
    }
  }

  lemma LinksExistStep(db: Db, op: Op)
    requires LinksExist(db)
    ensures LinksExist(Step(db, op)) && Step(db, op).rows.Keys == db.rows.Keys
  {
    hide ApplyLink, Undo;
    match op {
      case Apply(l, now, ok) => ApplyEffect(db, l, now, ok);
      case UndoOf(loser, ok) => UndoEffect(db, loser, ok);
      case PlaceHold(id) =>
      case ReleaseHold(i) =>
    }
  }

  lemma ApplyEffect(db: Db, l: Link, now: Time, auditOk: bool)
    ensures var after := ApplyLink(db, l, now, auditOk).0;
            && after.rows.Keys == db.rows.Keys
            && (after.links == db.links || (after.links == db.links + {l} && l.from in db.rows && l.to in db.rows))
  {
    hide Held;
  }

  /** When a resolution is refused, and what a successful one does to each table: the number
      it returns is the chunks newly expired, and only then is there an audit row. */
  lemma ResolveEffect(db: Db, from: ChunkId, to: ChunkId, now: Time, auditOk: bool)
    requires LinksExist(db)
    ensures var (after, r) := Resolve(db, from, to, now, auditOk);
            && after.holds == db.holds
            && (r.Err? <==> from == to || Held(db, to) || from !in db.rows || to !in db.rows)
            && (r.Err? ==> after == db)
            && (r.Ok? ==>
                  && after.links == db.links + {Link(from, to, Supersedes)}
                  && after.rows == (if Current(db, to) then db.rows[to := db.rows[to].(validTo := Some(now))] else db.rows)
                  && r.value == (if Current(db, to) then 1 else 0)
                  && after.audit == db.audit + (if Current(db, to) && auditOk then [AuditRow(HashOf(db, to), "supersession")] else [])
                  && HashOf(db, to) == match db.rows[to].contentHash case Some(h) => h case None => "unknown")
  {
    hide Held;
    var l := Link(from, to, Supersedes);
    if l in db.links { assert db.links + {l} == db.links; }
  }

  /** Links are added whole or not at all, and never twice. */
  lemma LinkEffect(db: Db, from: ChunkId, to: ChunkId, kind: LinkKind)
    requires LinksExist(db)
    ensures var (after, r) := LinkEvidence(db, from, to, kind);
            var l := Link(from, to, kind);
            && (r.Ok? <==> !kind.Unknown? && from != to && from in db.rows && to in db.rows)
            && (r.Err? ==> after == db)
            && (r.Ok? ==> after == db.(links := db.links + {l}) && r.value == |after.links| - |db.links|)
  {
    var l := Link(from, to, kind);
    if l in db.links { assert db.links + {l} == db.links; }
  }

  lemma UndoEffect(db: Db, loser: ChunkId, auditOk: bool)
    ensures var (after, changes) := Undo(db, loser, auditOk);
            && after.holds == db.holds
            && after.audit == db.audit + (if changes > 0 && auditOk then [AuditRow(HashOf(db, loser), "undo_supersession")] else [])
            && changes == (if Expired(db, loser) then 1 else 0) + |db.links - after.links|
            && after.links == WithoutIncoming(db.links, loser) && after.links <= db.links
            && after.rows == (if Expired(db, loser) then db.rows[loser := db.rows[loser].(validTo := None)] else db.rows)
            && after.rows.Keys == db.rows.Keys
  {
  }

  /** What an undo means: the chunk, if it exists, is current and no longer superseded; every
      other chunk keeps its standing in both senses; nothing at all changes, and nothing is
      counted, exactly when the chunk was neither expired nor superseded; so a second undo
      does nothing. */
  lemma UndoMeans(db: Db, loser: ChunkId, auditOk: bool, again: bool)
    ensures var (after, changes) := Undo(db, loser, auditOk);
            && (Current(after, loser) <==> loser in db.rows) && !Superseded(after.links, loser)
            && (forall id :: id != loser ==> (Current(after, id) <==> Current(db, id))
                                             && (Superseded(after.links, id) <==> Superseded(db.links, id)))
            && (changes == 0 <==> !Expired(db, loser) && !Superseded(db.links, loser))
            && (changes == 0 ==> after == db)
            && Undo(after, loser, again) == (after, 0)
  {
    UndoEffect(db, loser, auditOk);
    var (after, changes) := Undo(db, loser, auditOk);
    forall id ensures Superseded(after.links, id) <==> Superseded(db.links, id) && id != loser {
      SupersededAfterUndo(db.links, loser, id);
    }
    UndoCount(db, loser);
    UndoNothing(after, loser, again);
    if changes == 0 { UndoNothing(db, loser, auditOk); }
  }

  lemma UndoCount(db: Db, loser: ChunkId)
    ensures |db.links - WithoutIncoming(db.links, loser)| == 0 <==> !Superseded(db.links, loser)
  {
    var gone := db.links - WithoutIncoming(db.links, loser);
    if Superseded(db.links, loser) {
      var w :| w in db.links && w.kind.Supersedes? && w.to == loser;
      assert w in gone;
    } else {
      assert gone == {};
    }
  }

  function Incoming(links: set<Link>, loser: ChunkId): set<Link> {
    set l | l in links && l.to == loser && l.kind.Supersedes?
  }

  /** The count an undo returns, documented as at most 2: one for an expiry and one for every
      incoming supersession. On consistent tables it exceeds 2 exactly when at least two
      chunks supersede the loser. */
  lemma UndoCounts(db: Db, loser: ChunkId, auditOk: bool)
    ensures var changes := Undo(db, loser, auditOk).1;
            && changes == (if Expired(db, loser) then 1 else 0) + |Incoming(db.links, loser)|
            && (Agree(db) && loser in db.rows ==> (changes > 2 <==> |Incoming(db.links, loser)| >= 2) && changes != 1)
  {
    var gone := db.links - WithoutIncoming(db.links, loser);
    assert gone == Incoming(db.links, loser);
    UndoCount(db, loser);
  }

  /** Two chunks superseded a third: undoing counts three changes. */
  lemma UndoCountsThree()
    ensures exists db: Db :: Agree(db) && LinksExist(db) && Undo(db, 3, true).1 == 3
  {
    var row := Row(None, None, None);
    var l1, l2 := Link(1, 3, Supersedes), Link(2, 3, Supersedes);
    var db := Db(map[1 := row, 2 := row, 3 := row.(validTo := Some(5))], {l1, l2}, [], []);
    assert l1 in db.links && Superseded(db.links, 3);
    assert Incoming(db.links, 3) == {l1, l2};
    UndoCounts(db, 3, true);
    assert Agree(db);
  }

  lemma UndoNothing(db: Db, loser: ChunkId, auditOk: bool)
    requires !Expired(db, loser) && !Superseded(db.links, loser)
    ensures Undo(db, loser, auditOk) == (db, 0)
  {
    assert WithoutIncoming(db.links, loser) == db.links;
    assert db.links - db.links == {};
  }

  lemma AgreeHolds(db: Db, db': Db)
    requires Agree(db) && db'.rows == db.rows && db'.links == db.links
    ensures Agree(db')
  {
  }

  /** A chunk current at the start and held at every step is current at the end. */
  lemma {:induction false} HeldNeverExpires(db: Db, ops: seq<Op>, id: ChunkId)
    requires Current(db, id)
    requires forall k :: 0 <= k < |ops| ==> Held(Run(db, ops[..k]), id)
    ensures Current(Run(db, ops), id)
  {
    hide Held, Step, Current;
    if ops != [] {
      var front := ops[..|ops| - 1];
      assert forall k :: 0 <= k < |front| ==> front[..k] == ops[..k];
      HeldNeverExpires(db, front, id);
      assert front == ops[..|ops| - 1] && Held(Run(db, front), id);
      HeldStaysCurrent(Run(db, front), ops[|ops| - 1], id);
    }
  }

  lemma HeldStaysCurrent(db: Db, op: Op, id: ChunkId)
    requires Current(db, id) && Held(db, id)
    ensures Current(Step(db, op), id)
  {
    hide Held, WithoutIncoming;
  }

  // ---- resolve and undo ----

  /** Undoing a resolution restores rows and links exactly when the loser was not
      already expired or superseded: then, and only then, is undo the inverse. */
  lemma UndoInvertsResolve(db: Db, from: ChunkId, to: ChunkId, now: Time, ok1: bool, ok2: bool)
    requires LinksExist(db) && Resolve(db, from, to, now, ok1).1.Ok?
    ensures var after := Undo(Resolve(db, from, to, now, ok1).0, to, ok2).0;
            after.rows == db.rows && after.links == db.links <==> !Expired(db, to) && !Superseded(db.links, to)
  {
    hide Resolve, Undo;
    var mid := Resolve(db, from, to, now, ok1).0;
    var after := Undo(mid, to, ok2).0;
    var l := Link(from, to, Supersedes);
    ResolveEffect(db, from, to, now, ok1);
    UndoEffect(mid, to, ok2);
    SupersededAfterUndo(mid.links, to, to);
    if !Expired(db, to) && !Superseded(db.links, to) {
      assert l !in db.links;
      assert after.links == db.links;
      assert after.rows == db.rows;
    }
  }

  /** The rest of what an undone resolution leaves behind: holds are untouched and the
      audit log only grows. */
  lemma UndoneResolutionTrail(db: Db, from: ChunkId, to: ChunkId, now: Time, ok1: bool, ok2: bool)
    requires LinksExist(db)
    ensures var after := Undo(Resolve(db, from, to, now, ok1).0, to, ok2).0;
            && after.holds == db.holds && db.audit <= after.audit
            && (!Expired(db, to) && !Superseded(db.links, to) ==> Unresolved(after) == Unresolved(db))
  {
    hide Resolve, Undo, IsUnresolved;
    var (mid, r) := Resolve(db, from, to, now, ok1);
    var after := Undo(mid, to, ok2).0;
    ResolveEffect(db, from, to, now, ok1);
    UndoEffect(mid, to, ok2);
    if !Expired(db, to) && !Superseded(db.links, to) {
      if r.Ok? {
        UndoInvertsResolve(db, from, to, now, ok1, ok2);
      } else {
        SupersededAfterUndo(db.links, to, to);
        assert WithoutIncoming(db.links, to) == db.links;
      }
      assert after.rows == db.rows && after.links == db.links;
      SameUnresolved(db, after);
    }
  }

  lemma SameUnresolved(db: Db, db': Db)
    requires db'.rows == db.rows && db'.links == db.links
    ensures Unresolved(db') == Unresolved(db)
  {
    forall l | l in db.links ensures IsUnresolved(db', l) <==> IsUnresolved(db, l) {}
  }

  /** Resolving again changes nothing at all, whatever the later timestamp: the first
      expiry time is kept and no second audit row is written. */
  lemma ResolveIdempotent(db: Db, from: ChunkId, to: ChunkId, now: Time, later: Time, ok1: bool, ok2: bool)
    requires Resolve(db, from, to, now, ok1).1.Ok?
    ensures Resolve(Resolve(db, from, to, now, ok1).0, from, to, later, ok2)
         == (Resolve(db, from, to, now, ok1).0, Ok(0))
  {
    var mid := Resolve(db, from, to, now, ok1).0;
    assert mid.holds == db.holds && (Held(mid, to) <==> Held(db, to));
  }

  /** History is preserved: no query about an instant before the resolution changes,
      and default recall loses the superseded chunk and nothing else. */
  lemma ResolutionKeepsHistory(db: Db, from: ChunkId, to: ChunkId, now: Time, auditOk: bool, id: ChunkId, at: Time)
    ensures var (after, r) := Resolve(db, from, to, now, auditOk);
            && (at < now ==> (VisibleAt(after, id, at) <==> VisibleAt(db, id, at)))
            && (Current(after, id) <==> Current(db, id) && !(r.Ok? && id == to))
  {
  }

  /** A current chunk resolved at `now` is visible exactly at the instants from its start,
      if it has one, up to but not including `now`; before, it was visible from its start on. */
  lemma ResolvedInterval(db: Db, from: ChunkId, to: ChunkId, now: Time, auditOk: bool, at: Time)
    requires Current(db, to) && Resolve(db, from, to, now, auditOk).1.Ok?
    ensures var start := db.rows[to].validFrom;
            && (VisibleAt(db, to, at) <==> (start.Some? ==> start.value <= at))
            && (VisibleAt(Resolve(db, from, to, now, auditOk).0, to, at) <==> at < now && (start.Some? ==> start.value <= at))
  {
    hide Held;
  }

  /** A hold placed on a chunk blocks every resolution against it, and only unreleased holds
      do: once every hold on it is released, none is refused for a hold. */
  lemma HoldBlocks(db: Db, from: ChunkId, to: ChunkId, now: Time, auditOk: bool)
    ensures to in db.rows && from != to ==>
              Resolve(Step(db, PlaceHold(to)), from, to, now, auditOk) == (Step(db, PlaceHold(to)), Err(LegalHoldActive))
    ensures (forall i :: 0 <= i < |db.holds| ==> db.holds[i].chunk == to ==> db.holds[i].released) ==>
              Resolve(db, from, to, now, auditOk).1 != Err(LegalHoldActive)
  {
    if to in db.rows {
      var held := Step(db, PlaceHold(to));
      assert held.holds[|db.holds|] == Hold(to, false);
    }
  }

  // ---- unresolved contradictions ----

  predicate Touches(links: set<Link>, id: ChunkId) { Superseded(links, id) || Supersedor(links, id) }

  predicate IsUnresolved(db: Db, l: Link) {
    && l in db.links && l.kind.Contradicts?
    && !Touches(db.links, l.from) && !Touches(db.links, l.to)
    && !Expired(db, l.from) && !Expired(db, l.to)
  }

  function Unresolved(db: Db): set<Link> { set l | l in db.links && IsUnresolved(db, l) }

  /** What the documentation calls unresolved: both ends current, in both senses. */
  predicate BothCurrent(db: Db, l: Link) {
    && l in db.links && l.kind.Contradicts?
    && !Superseded(db.links, l.from) && !Superseded(db.links, l.to)
    && !Expired(db, l.from) && !Expired(db, l.to)
  }

  /** The check reports fewer contradictions than documented: it also hides one whose end
      is the winner of an unrelated supersession. It reports every pair of current chunks
      exactly when no such chunk has superseded another. */
  lemma UnresolvedMissesWinners(db: Db, l: Link)
    ensures IsUnresolved(db, l) <==> BothCurrent(db, l) && !Supersedor(db.links, l.from) && !Supersedor(db.links, l.to)
  {
  }

  /** A store where two current chunks contradict each other and the check is silent. */
  lemma UnresolvedMissesWinnersExample()
    ensures exists db: Db, l :: Agree(db) && LinksExist(db) && BothCurrent(db, l) && !IsUnresolved(db, l)
  {
    var row := Row(None, None, None);
    var won, clash := Link(2, 1, Supersedes), Link(2, 3, Contradicts);
    var db := Db(map[1 := row.(validTo := Some(5)), 2 := row, 3 := row], {won, clash}, [], []);
    assert won in db.links && clash in db.links;
    assert Superseded(db.links, 1) && Supersedor(db.links, 2);
    assert BothCurrent(db, clash) && !IsUnresolved(db, clash);
  }

  /** Resolving settles exactly the contradictions that touch the two chunks. */
  lemma ResolveSettles(db: Db, from: ChunkId, to: ChunkId, now: Time, auditOk: bool)
    requires Resolve(db, from, to, now, auditOk).1.Ok?
    ensures Unresolved(Resolve(db, from, to, now, auditOk).0)
         == set l | l in Unresolved(db) && l.from !in {from, to} && l.to !in {from, to}
  {
    var after := Resolve(db, from, to, now, auditOk).0;
    var s := Link(from, to, Supersedes);
    assert after.links == db.links + {s};
    forall id ensures Touches(after.links, id) <==> Touches(db.links, id) || id in {from, to} {
      SupersededAfterLink(db.links, s, id);
      SupersedorAfterLink(db.links, s, id);
    }
  }

  lemma SupersedorAfterLink(links: set<Link>, l: Link, id: ChunkId)
    ensures Supersedor(links + {l}, id) <==> Supersedor(links, id) || (l.kind.Supersedes? && l.from == id)
  {
    if l.kind.Supersedes? && l.from == id {
      assert l in links + {l};
    }
    if Supersedor(links, id) {
      var w :| w in links && w.kind.Supersedes? && w.from == id;
      assert w in links + {l};
    }
  }

  // ---- erasure breaks the agreement ----

  /** `c` is superseded, and only by chunks among `ids`. */
  ghost predicate SupersededOnlyBy(links: set<Link>, ids: seq<ChunkId>, c: ChunkId) {
    Superseded(links, c) && forall l :: l in links && l.kind.Supersedes? && l.to == c ==> l.from in ids
  }

  lemma SupersededAfterPurge(links: set<Link>, ids: seq<ChunkId>, c: ChunkId)
    requires c !in ids
    ensures Superseded(LinksWithout(links, ids), c) <==> Superseded(links, c) && !SupersededOnlyBy(links, ids, c)
    ensures SupersededOnlyBy(links, ids, c) ==> Superseded(links, c)
  {
    if Superseded(links, c) && !SupersededOnlyBy(links, ids, c) {
      var l :| l in links && l.kind.Supersedes? && l.to == c && l.from !in ids;
      assert l in LinksWithout(links, ids);
    }
  }

  /** Erasing a list of chunks keeps the two notions in agreement if and only if the list is
      refused for a hold or no chunk that stays is superseded only by chunks on the list: such
      a chunk would stay expired with no link left to explain it. */
  lemma PurgeAgreement(db: Db, ids: seq<ChunkId>)
    requires Agree(db)
    ensures Agree(Purge(db, ids).0)
        <==> HeldAmong(db, ids) != {} || forall c :: c in db.rows && c !in ids ==> !SupersededOnlyBy(db.links, ids, c)
  {
    hide HeldAmong, SupersededOnlyBy, Superseded;
    var after := Purge(db, ids).0;
    if HeldAmong(db, ids) == {} {
      forall c | c in db.rows && c !in ids
        ensures c in after.rows && (Expired(after, c) <==> Superseded(db.links, c))
        ensures Superseded(after.links, c) <==> Superseded(db.links, c) && !SupersededOnlyBy(db.links, ids, c)
        ensures SupersededOnlyBy(db.links, ids, c) ==> Superseded(db.links, c)
      {
        SupersededAfterPurge(db.links, ids, c);
      }
    }
  }

  /** What an erasure means: refused, and nothing changes, if any chunk on the list is held;
      otherwise no chunk on the list and no link of any kind that touches one is left, every
      other row and link stays, and the count is the rows that went. */
  lemma PurgeErases(db: Db, ids: seq<ChunkId>)
    ensures var (after, r) := Purge(db, ids);
            && (r.Err? <==> exists id :: id in ids && Held(db, id)) && (r.Err? ==> after == db)
            && after.holds == db.holds && after.audit == db.audit
            && (r.Ok? ==>
                  && (forall id :: id in after.rows <==> id in db.rows && id !in ids)
                  && (forall id :: id in after.rows ==> after.rows[id] == db.rows[id])
                  && (forall l :: l in after.links <==> l in db.links && l.from !in ids && l.to !in ids)
                  && r.value == |db.rows| - |after.rows|)
  {
    hide Held;
    var (after, r) := Purge(db, ids);
    if exists id :: id in ids && Held(db, id) {
      var id :| id in ids && Held(db, id);
      assert id in HeldAmong(db, ids);
    } else {
      assert HeldAmong(db, ids) == {};
      assert db.rows.Keys == after.rows.Keys + Erased(db.rows, ids);
      assert after.rows.Keys !! Erased(db.rows, ids);
      assert |db.rows.Keys| == |after.rows.Keys| + |Erased(db.rows, ids)|;
      assert |db.rows| == |db.rows.Keys| && |after.rows| == |after.rows.Keys|;
    }
  }

  /** A consistent store that an erasure makes inconsistent. */
  lemma PurgeBreaksAgreement()
    ensures exists db: Db :: Agree(db) && LinksExist(db) && Purge(db, [2]).1.Ok? && !Agree(Purge(db, [2]).0)
  {
    var row := Row(None, None, None);
    var won := Link(2, 1, Supersedes);
    var db := Db(map[1 := row.(validTo := Some(5)), 2 := row], {won}, [], []);
    assert won in db.links && Superseded(db.links, 1);
    var after := Purge(db, [2]).0;
    assert 1 in after.rows && Expired(after, 1) && !Superseded(after.links, 1);
  }
}
