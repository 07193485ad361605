/**
 Backup and restore over an existing database (src/backup.rs): the order of the
 refusals, the safety snapshot, the atomic replacement, the re-application of legal
 holds and the audit rows. Every write appends the disk state it leaves to a trace,
 so a crash after any step is one of the states of the trace. Whether each I/O
 operation succeeds is an input.
 */
module Restore {
  import opened Common
  import opened Utf8Text
  import BackupFormat

  datatype HoldRow = HoldRow(chunk: int, reason: string, heldBy: string, heldAt: int, released: bool)

  /** A database as restore sees it; a missing table is `None`. */
  datatype Db = Db(data: Bytes, holds: Option<seq<HoldRow>>, audit: Option<seq<string>>)

  /** The safety snapshot beside the database: created empty, then filled. */
  datatype Bak = Absent | Partial | Complete(db: Db)

  datatype Disk = Disk(live: Db, bak: Bak)

  datatype ActiveHold = ActiveHold(chunk: int, reason: string, heldBy: string)

  /** The operator's request: the file, its checksum sidecar, passphrase and flag. */
  datatype Request = Request(file: Bytes, sidecar: Option<Bytes>, passphrase: Bytes, allowChainless: bool)

  /** Hashes, the database writer and reader, and the audit-chain check. */
  datatype Env = Env(codec: BackupFormat.Codec, sha256: Bytes -> Bytes, xxh3: Bytes -> Bytes,
                     encode: Db -> Bytes, decode: Bytes -> Db, chainVerifies: Db -> bool, keyedHead: Db -> bool)

  datatype Format = V1 | V2 | V3

  /** What one backup run is given and draws: format, passphrase, the clock, the program's
      version, the connector configuration files, salt and nonce. */
  datatype Job = Job(format: Format, passphrase: Bytes, createdAt: Bytes, appVersion: Bytes,
                     config: seq<BackupFormat.Component>, salt: Bytes, nonce: Bytes)

  /** Which I/O operations of a backup succeed. */
  datatype BackupIo = BackupIo(snapshot: bool, readConfig: bool, writeFile: bool, writeSidecar: bool, audit: bool)

  /** Which I/O operations succeed. */
  datatype Io = Io(readFile: bool, checkpoint: bool, readHolds: bool, createBak: bool, fillBak: bool,
                   verifyCopy: bool, writeTemp: bool, rename: bool, reopen: bool, insertHold: nat -> bool, audit: bool)

  datatype Refusal = Unreadable | ChecksumMismatch | DecryptFailed | IntegrityFailed | BakExists
                   | HoldsUnreadable | BakFailed | ChainRefused | WriteFailed

  datatype Disclosure = Disclosure(legacyUnkeyedChain: bool, chainlessAdmitted: bool)

  // ---- what a request carries ----

  const BRAIN_DB: Bytes := [98, 114, 97, 105, 110, 46, 100, 98]

  /** The first manifest component named `brain.db`. */
  function BrainDbHash(cs: seq<BackupFormat.Component>): Option<Bytes> {
    if cs == [] then None
    else if cs[0].name == BRAIN_DB then Some(cs[0].xxh3)
    else BrainDbHash(cs[1..])
  }

  predicate Posture(env: Env, db: Db, allowChainless: bool) {
    if db.audit.None? then allowChainless else env.chainVerifies(db)
  }

  /** `snapshot` is what the request decrypts to, and it passed the checksum sidecar, the
      manifest hash and the audit-chain posture. */
  ghost predicate Admitted(env: Env, req: Request, snapshot: Bytes) {
    Authentic(env, req, snapshot) && Posture(env, env.decode(snapshot), req.allowChainless)
  }

  ghost predicate Authentic(env: Env, req: Request, snapshot: Bytes) {
    && req.sidecar == Some(env.sha256(req.file))
    && var r := BackupFormat.DecryptBackup(env.codec, req.file, req.passphrase);
    && r.Ok? && r.value.1 == snapshot
    && BrainDbHash(r.value.0.components) == Some(env.xxh3(snapshot))
  }

  lemma AuthenticUnique(env: Env, req: Request, s: Bytes)
    requires Authentic(env, req, s)
    ensures forall t :: Authentic(env, req, t) ==> t == s
  {
    hide BackupFormat.DecryptBackup;
  }

  // ---- comparing databases ----

  ghost predicate AuditGrew(a: Option<seq<string>>, b: Option<seq<string>>) {
    a.Some? == b.Some? && (a.Some? ==> a.value <= b.value)
  }

  /** Nothing but audit rows differs. */
  ghost predicate OnlyAudit(a: Db, b: Db) {
    b.data == a.data && b.holds == a.holds && AuditGrew(a.audit, b.audit)
  }

  predicate HasRow(rows: seq<HoldRow>, chunk: int) {
    exists i :: 0 <= i < |rows| && rows[i].chunk == chunk
  }

  predicate IsHeld(rows: seq<HoldRow>, chunk: int) {
    exists i :: 0 <= i < |rows| && rows[i].chunk == chunk && !rows[i].released
  }

  predicate InActive(active: seq<ActiveHold>, chunk: int) {
    exists i :: 0 <= i < |active| && active[i].chunk == chunk
  }

  /** `b` is `a` with only unreleased rows added, for ids held before that had no row. */
  ghost predicate HoldsGrew(a: Option<seq<HoldRow>>, b: Option<seq<HoldRow>>, active: seq<ActiveHold>) {
    && a.Some? == b.Some?
    && (a.Some? ==>
          && a.value <= b.value
          && forall i :: |a.value| <= i < |b.value| ==>
               !b.value[i].released && InActive(active, b.value[i].chunk) && !HasRow(a.value, b.value[i].chunk))
  }

  /** `live` is the image plus re-applied holds and audit rows. */
  ghost predicate FromImage(image: Db, live: Db, active: seq<ActiveHold>) {
    live.data == image.data && HoldsGrew(image.holds, live.holds, active) && AuditGrew(image.audit, live.audit)
  }

  /** The unreleased hold rows, in table order. */
  function ActiveHolds(rows: seq<HoldRow>): seq<ActiveHold> {
    if rows == [] then []
    else ActiveHolds(rows[..|rows| - 1])
         + (if rows[|rows| - 1].released then []
            else [ActiveHold(rows[|rows| - 1].chunk, rows[|rows| - 1].reason, rows[|rows| - 1].heldBy)])
  }

  function HeldBefore(db: Db): seq<ActiveHold> { if db.holds.None? then [] else ActiveHolds(db.holds.value) }

  /** Safety of a disk state `d` some restore of `req`, started from `d0`, can leave behind
      at any moment. */
  ghost predicate SafeFrom(env: Env, req: Request, d0: Disk, d: Disk) {
    if d0.bak.Absent? then
      || (OnlyAudit(d0.live, d.live) && (d.bak.Complete? ==> d.bak.db == d0.live))
      || (d.bak == Complete(d0.live)
          && exists snapshot :: Admitted(env, req, snapshot)
                                && FromImage(env.decode(snapshot), d.live, HeldBefore(d0.live)))
    else d.bak == d0.bak && OnlyAudit(d0.live, d.live)
  }

  // ---- re-applying holds ----

  /** What inserting the active holds one by one leaves: a hold is inserted when its id
      still has no row at all. */
  function Reapplied(rows: seq<HoldRow>, active: seq<ActiveHold>, now: int): seq<HoldRow> {
    if active == [] then rows
    else
      var before := Reapplied(rows, active[..|active| - 1], now);
      var h := active[|active| - 1];
      if HasRow(before, h.chunk) then before
      else before + [HoldRow(h.chunk, h.reason, h.heldBy, now, false)]
  }

  // ---- the program ----

  class Host {
    var live: Db
    var bak: Bak
    ghost var trace: seq<Disk>

    ghost function View(): Disk
      reads this
    {
      Disk(live, bak)
    }

    constructor (d: Disk)
      ensures View() == d && trace == [d]
    {
      live, bak, trace := d.live, d.bak, [d];
    }

    /** Best-effort audit row on the database in place. */
    method Audit(detail: string, ok: bool)
      modifies this
      ensures bak == old(bak) && OnlyAudit(old(live), live)
      ensures trace == old(trace) + [View()]
    {
      if ok && live.audit.Some? {
        live := live.(audit := Some(live.audit.value + [detail]));
      }
      trace := trace + [Disk(live, bak)];
    }

    method FindHoldRow(chunk: int) returns (found: bool)
      requires live.holds.Some?
      ensures found <==> HasRow(live.holds.value, chunk)
    {
      found := false;
      for i := 0 to |live.holds.value|
        invariant found <==> exists k :: 0 <= k < i && live.holds.value[k].chunk == chunk
      {
        if live.holds.value[i].chunk == chunk {
          found := true;
        }
      }
    }

    /** Re-insert the holds that were active before the restore. */
    method ReapplyHolds(active: seq<ActiveHold>, now: int, reopen: bool, insertOk: nat -> bool) returns (reapplied: nat)
      modifies this
      ensures bak == old(bak) && live.data == old(live).data && live.audit == old(live).audit
      ensures HoldsGrew(old(live).holds, live.holds, active)
      ensures live.holds.Some? ==> reapplied == |live.holds.value| - |old(live).holds.value|
      ensures live.holds.None? ==> reapplied == 0
      ensures reopen && live.holds.Some? && (forall i :: 0 <= i < |active| ==> insertOk(i)) ==>
                live.holds.value == Reapplied(old(live).holds.value, active, now)
      ensures old(trace) <= trace
      ensures forall i :: |old(trace)| <= i < |trace| ==>
                trace[i].bak == bak && FromImage(old(live), trace[i].live, active)
    {
      reapplied := 0;
      if !reopen {
        return;
      }
      for i := 0 to |active|
        invariant bak == old(bak) && live.data == old(live).data && live.audit == old(live).audit
        invariant HoldsGrew(old(live).holds, live.holds, active)
        invariant if live.holds.Some? then reapplied == |live.holds.value| - |old(live).holds.value| else reapplied == 0
        invariant live.holds.Some? && (forall k :: 0 <= k < i ==> insertOk(k)) ==>
                    live.holds.value == Reapplied(old(live).holds.value, active[..i], now)
        invariant old(trace) <= trace
        invariant forall k :: |old(trace)| <= k < |trace| ==>
                    trace[k].bak == bak && FromImage(old(live), trace[k].live, active)
      {
        assert active[..i + 1][..i] == active[..i];
        if live.holds.None? || !insertOk(i) {
          continue;
        }
        var found := FindHoldRow(active[i].chunk);
        if !found {
          HoldInsert(old(live).holds.value, live.holds.value, active, i, now);
          live := live.(holds := Some(live.holds.value
                    + [HoldRow(active[i].chunk, active[i].reason, active[i].heldBy, now, false)]));
          reapplied := reapplied + 1;
          trace := trace + [Disk(live, bak)];
        }
      }
      assert active[..|active|] == active;
    }

    /** Read the file and check the sidecar, the ciphertext and the manifest hash. */
    method ReadSnapshot(env: Env, req: Request, io: Io) returns (r: Result<Bytes, Refusal>)
      ensures r.Ok? ==> Authentic(env, req, r.value)
      ensures io.readFile && (exists s :: Authentic(env, req, s)) ==> r.Ok?
    {
      hide BackupFormat.DecryptBackup;
      if !io.readFile {
        return Err(Unreadable);
      }
      if req.sidecar != Some(env.sha256(req.file)) {
        return Err(ChecksumMismatch);
      }
      var decrypted := BackupFormat.DecryptBackup(env.codec, req.file, req.passphrase);
      if decrypted.Err? {
        return Err(DecryptFailed);
      }
      var manifest, snapshot := decrypted.value.0, decrypted.value.1;
      if BrainDbHash(manifest.components) != Some(env.xxh3(snapshot)) {
        return Err(IntegrityFailed);
      }
      return Ok(snapshot);
    }

    /** Refuse over an existing safety snapshot, harvest the active holds, take the snapshot. */
    method TakeSafetySnapshot(io: Io) returns (r: Result<seq<ActiveHold>, Refusal>)
      modifies this
      ensures live == old(live)
      ensures r.Ok? ==> old(bak).Absent? && bak == Complete(live) && r.value == HeldBefore(live)
      ensures !old(bak).Absent? ==> bak == old(bak) && trace == old(trace)
      ensures old(trace) <= trace && (trace == old(trace) ==> bak == old(bak))
      ensures trace != old(trace) ==> trace[|trace| - 1] == View()
      ensures forall i :: |old(trace)| <= i < |trace| ==>
                trace[i].live == live && (trace[i].bak.Complete? ==> trace[i].bak.db == live)
      ensures old(bak).Absent? && AllReads(io) ==> r.Ok?
    {
      if !bak.Absent? {
        return Err(BakExists);
      }
      if !io.checkpoint {
        return Err(Unreadable);
      }
      // A missing holds table means no holds; any other read error refuses.
      if live.holds.Some? && !io.readHolds {
        return Err(HoldsUnreadable);
      }
      var active := HeldBefore(live);
      if !io.createBak {
        return Err(BakFailed);
      }
      bak := Partial;
      trace := trace + [Disk(live, bak)];
      if !io.fillBak {
        return Err(BakFailed);
      }
      bak := Complete(live);
      trace := trace + [Disk(live, bak)];
      return Ok(active);
    }

    /** Put the image in place of the live database, re-apply the holds, write the audit rows. */
    method Replace(env: Env, image: Db, active: seq<ActiveHold>, io: Io, now: int) returns (d: Disclosure)
      modifies this
      ensures bak == old(bak) && FromImage(image, live, active)
      ensures io.reopen && image.holds.Some? && (forall i :: 0 <= i < |active| ==> io.insertHold(i)) ==>
                live.holds == Some(Reapplied(image.holds.value, active, now))
      ensures old(trace) < trace && trace[|trace| - 1] == View()
      ensures forall i :: |old(trace)| <= i < |trace| ==> trace[i].bak == bak && FromImage(image, trace[i].live, active)
      ensures d == Disclosure(image.audit.None? || !env.keyedHead(image), image.audit.None?)
    {
      live := image;
      trace := trace + [Disk(live, bak)];
      var n := ReapplyHolds(active, now, io.reopen, io.insertHold);
      Audit("restore complete", io.audit);
      var chainless := image.audit.None?;
      var legacy := chainless || !env.keyedHead(image);
      if legacy && !chainless {
        Audit("legacy_unkeyed_chain: forgeable: true", io.audit);
      }
      d := Disclosure(legacy, chainless);
    }

    method RestoreInner(env: Env, req: Request, io: Io, now: int) returns (r: Result<Disclosure, Refusal>)
      requires trace != [] && trace[|trace| - 1] == View()
      modifies this
      ensures old(trace) <= trace && trace[|trace| - 1] == View()
      ensures forall i :: |old(trace)| <= i < |trace| ==> SafeFrom(env, req, old(View()), trace[i])
      ensures !old(bak).Absent? ==> trace == old(trace)
      ensures r.Err? ==> live == old(live) && SafeFrom(env, req, old(View()), View())
      ensures r.Ok? ==> Restored(env, req, io, now, old(View()), View())
      ensures r.Ok? ==> (r.value.chainlessAdmitted <==> live.audit.None?)
      ensures r.Ok? && r.value.chainlessAdmitted ==> req.allowChainless && r.value.legacyUnkeyedChain
      ensures (exists snapshot :: Admitted(env, req, snapshot)) && old(bak).Absent? && AllReads(io) ==> r.Ok?
    {
      hide Authentic, FromImage, Posture, Reapplied, HeldBefore, OnlyAudit;
      ghost var d0 := View();
      OnlyAuditSelf(live);
      var snapshot := ReadSnapshot(env, req, io);
      if snapshot.Err? {
        return Err(snapshot.error);
      }
      AuthenticUnique(env, req, snapshot.value);
      var active := TakeSafetySnapshot(io);
      if active.Err? {
        return Err(active.error);
      }
      if !io.verifyCopy {
        return Err(Unreadable);
      }
      var image := env.decode(snapshot.value);
      if !Posture(env, image, req.allowChainless) {
        return Err(ChainRefused);
      }
      assert Admitted(env, req, snapshot.value);
      if !io.writeTemp || !io.rename {
        return Err(WriteFailed);
      }
      var d := Replace(env, image, active.value, io, now);
      ImageAudit(image, live, active.value);
      PostureAllows(env, image, req.allowChainless);
      r := Ok(d);
    }

    /** Restore, and leave an audit row behind when it is refused. */
    method RestoreWithOptions(env: Env, req: Request, io: Io, now: int) returns (r: Result<Disclosure, Refusal>)
      requires trace != [] && trace[|trace| - 1] == View()
      modifies this
      ensures old(trace) <= trace && trace[|trace| - 1] == View()
      ensures forall i :: |old(trace)| <= i < |trace| ==> SafeFrom(env, req, old(View()), trace[i])
      ensures r.Err? ==> OnlyAudit(old(live), live)
      ensures r.Ok? ==> Restored(env, req, io, now, old(View()), View())
      ensures !old(bak).Absent? ==> r.Err? && bak == old(bak)
    {
      r := RestoreInner(env, req, io, now);
      if r.Err? {
        Audit("restore failed", io.audit);
      }
    }

    /** Snapshot the live database, seal it with its manifest and write the file, then its
        checksum sidecar. */
    method BackupInner(env: Env, job: Job, io: BackupIo)
      returns (r: Result<(), Refusal>, file: Option<Bytes>, sidecar: Option<Bytes>)
      ensures r.Ok? <==> bak.Absent? && io.snapshot && io.readConfig && io.writeFile && io.writeSidecar
      ensures !bak.Absent? ==> r == Err(BakExists)
      ensures file.Some? ==> bak.Absent? && file.value == BackupFile(env, live, job)
      ensures sidecar.Some? ==> file.Some? && sidecar.value == env.sha256(file.value)
      ensures r.Ok? <==> sidecar.Some?
    {
      file, sidecar := None, None;
      if !bak.Absent? {
        return Err(BakExists), file, sidecar;
      }
      if !io.snapshot {
        return Err(Unreadable), file, sidecar;
      }
      var snapshot := env.encode(live);
      var components := [BackupFormat.Component(BRAIN_DB, env.xxh3(snapshot), |snapshot|, false)];
      if !io.readConfig {
        return Err(Unreadable), file, sidecar;
      }
      for i := 0 to |job.config|
        invariant components == [BackupFormat.Component(BRAIN_DB, env.xxh3(snapshot), |snapshot|, false)] + job.config[..i]
      {
        components := components + [job.config[i]];
      }
      var manifest := BackupFormat.Manifest(job.createdAt, job.appVersion, components);
      assert manifest == ManifestFor(env, live, job);
      var out: Bytes;
      match job.format {
        case V1 =>
          var bundle := BackupFormat.BuildBundle(env.codec, manifest, snapshot);
          out := BackupFormat.EncryptV1(env.codec, bundle, job.passphrase, job.createdAt);
        case V2 =>
          out := BackupFormat.EncryptVersioned(env.codec, manifest, snapshot, job.passphrase, job.createdAt,
                                               BackupFormat.VERSION_V2, job.salt, job.nonce);
        case V3 =>
          out := BackupFormat.EncryptVersioned(env.codec, manifest, snapshot, job.passphrase, job.createdAt,
                                               BackupFormat.VERSION_V3, job.salt, job.nonce);
      }
      if !io.writeFile {
        return Err(WriteFailed), file, sidecar;
      }
      file := Some(out);
      if !io.writeSidecar {
        return Err(WriteFailed), file, sidecar;
      }
      sidecar := Some(env.sha256(out));
      return Ok(()), file, sidecar;
    }

    /** Backup, and leave an audit row behind; it refuses while a safety snapshot exists, and
        a backup without its sidecar is an error. */
    method Backup(env: Env, job: Job, io: BackupIo)
      returns (r: Result<(), Refusal>, file: Option<Bytes>, sidecar: Option<Bytes>)
      requires trace != [] && trace[|trace| - 1] == View()
      modifies this
      ensures bak == old(bak) && OnlyAudit(old(live), live)
      ensures trace == old(trace) + [View()]
      ensures r.Ok? <==> bak.Absent? && io.snapshot && io.readConfig && io.writeFile && io.writeSidecar
      ensures !old(bak).Absent? ==> r == Err(BakExists)
      ensures file.Some? ==> bak.Absent? && file.value == BackupFile(env, old(live), job)
      ensures sidecar.Some? ==> file.Some? && sidecar.value == env.sha256(file.value)
      ensures r.Ok? <==> sidecar.Some?
    {
      hide BackupFile;
      r, file, sidecar := BackupInner(env, job, io);
      Audit(if r.Ok? then "backup complete" else "backup failed", io.audit);
    }
  }

  // ---- what a backup holds ----

  function ManifestFor(env: Env, db: Db, job: Job): BackupFormat.Manifest {
    var snapshot := env.encode(db);
    BackupFormat.Manifest(job.createdAt, job.appVersion,
                          [BackupFormat.Component(BRAIN_DB, env.xxh3(snapshot), |snapshot|, false)] + job.config)
  }

  function BackupFile(env: Env, db: Db, job: Job): Bytes {
    var c, manifest, snapshot := env.codec, ManifestFor(env, db, job), env.encode(db);
    match job.format
    case V1 => BackupFormat.V1File(c, BackupFormat.Bundle(c, manifest, snapshot), job.passphrase, job.createdAt)
    case V2 => BackupFormat.VersionedFile(c, manifest, snapshot, job.passphrase, job.createdAt, BackupFormat.VERSION_V2, job.salt, job.nonce)
    case V3 => BackupFormat.VersionedFile(c, manifest, snapshot, job.passphrase, job.createdAt, BackupFormat.VERSION_V3, job.salt, job.nonce)
  }

  lemma ImageAudit(image: Db, live: Db, active: seq<ActiveHold>)
    requires FromImage(image, live, active)
    ensures image.audit.None? <==> live.audit.None?
  {
  }

  lemma PostureAllows(env: Env, db: Db, allowChainless: bool)
    requires Posture(env, db, allowChainless)
    ensures db.audit.None? ==> allowChainless
  {
  }

  lemma OnlyAuditSelf(db: Db)
    ensures OnlyAudit(db, db)
  {
  }

  /** Every read and write before the replacement succeeds. */
  ghost predicate AllReads(io: Io) {
    io.readFile && io.checkpoint && io.readHolds && io.createBak && io.fillBak && io.verifyCopy && io.writeTemp && io.rename
  }

  /** What a restore that reports success has done. */
  ghost predicate Restored(env: Env, req: Request, io: Io, now: int, d0: Disk, d: Disk) {
    && d0.bak.Absent? && d.bak == Complete(d0.live)
    && exists snapshot ::
         && Admitted(env, req, snapshot)
         && var image := env.decode(snapshot);
         && FromImage(image, d.live, HeldBefore(d0.live))
         && (io.reopen && image.holds.Some? && (forall i :: 0 <= i < |HeldBefore(d0.live)| ==> io.insertHold(i)) ==>
               d.live.holds == Some(Reapplied(image.holds.value, HeldBefore(d0.live), now)))
  }

  lemma HoldInsert(image: seq<HoldRow>, rows: seq<HoldRow>, active: seq<ActiveHold>, i: nat, now: int)
    requires i < |active| && HoldsGrew(Some(image), Some(rows), active) && !HasRow(rows, active[i].chunk)
    ensures HoldsGrew(Some(image), Some(rows + [HoldRow(active[i].chunk, active[i].reason, active[i].heldBy, now, false)]), active)
  {
    assert forall k :: 0 <= k < |image| ==> image[k] == rows[k];
  }

  // ---- histories of attempts, each possibly cut short ----

  datatype Attempt = RestoreOf(req: Request) | BackupRun

  /** `d` is a disk state the attempt can leave when it ends or is interrupted. */
  ghost predicate Leaves(env: Env, a: Attempt, d0: Disk, d: Disk) {
    match a
    case RestoreOf(req) => SafeFrom(env, req, d0, d)
    case BackupRun => d.bak == d0.bak && OnlyAudit(d0.live, d.live)
  }

  ghost predicate History(env: Env, attempts: seq<Attempt>, disks: seq<Disk>) {
    && |disks| == |attempts| + 1
    && forall i :: 0 <= i < |attempts| ==> Leaves(env, attempts[i], disks[i], disks[i + 1])
  }

  lemma OnlyAuditTrans(a: Db, b: Db, c: Db)
    requires OnlyAudit(a, b) && OnlyAudit(b, c)
    ensures OnlyAudit(a, c)
  {
  }

  /** While a safety snapshot exists no attempt touches it, or the live database beyond
      its audit log. */
  lemma {:induction false} FrozenWhileBakExists(env: Env, attempts: seq<Attempt>, disks: seq<Disk>, i: nat)
    requires History(env, attempts, disks) && !disks[0].bak.Absent? && i < |disks|
    ensures disks[i].bak == disks[0].bak && OnlyAudit(disks[0].live, disks[i].live)
  {
    hide OnlyAudit;
    if i == 0 {
      OnlyAuditSelf(disks[0].live);
    } else {
      FrozenWhileBakExists(env, attempts, disks, i - 1);
      assert Leaves(env, attempts[i - 1], disks[i - 1], disks[i]);
      OnlyAuditTrans(disks[0].live, disks[i - 1].live, disks[i].live);
    }
  }

  /** `live` is an image that one of the attempts was allowed to restore. */
  ghost predicate AdmittedImage(env: Env, attempts: seq<Attempt>, live: Db) {
    exists j, snapshot, active ::
      && 0 <= j < |attempts| && attempts[j].RestoreOf? && Admitted(env, attempts[j].req, snapshot)
      && FromImage(env.decode(snapshot), live, active)
  }

  /** Over every history of backups and restores, each cut short at any step, the original
      data is either still live or complete in the safety snapshot; and what is live is the
      original or an image that passed every check. */
  lemma {:induction false} NothingIsLost(env: Env, attempts: seq<Attempt>, disks: seq<Disk>, i: nat)
    requires History(env, attempts, disks) && disks[0].bak.Absent? && i < |disks|
    ensures || OnlyAudit(disks[0].live, disks[i].live)
            || (&& disks[i].bak.Complete? && OnlyAudit(disks[0].live, disks[i].bak.db)
                && AdmittedImage(env, attempts, disks[i].live))
  {
    hide OnlyAudit, Admitted, FromImage, AdmittedImage;
    if i == 0 {
      OnlyAuditSelf(disks[0].live);
    } else {
      var d0, d1, d, a := disks[0], disks[i - 1], disks[i], attempts[i - 1];
      NothingIsLost(env, attempts, disks, i - 1);
      assert Leaves(env, a, d1, d);
      if OnlyAudit(d1.live, d.live) && OnlyAudit(d0.live, d1.live) {
        OnlyAuditTrans(d0.live, d1.live, d.live);
      } else if OnlyAudit(d1.live, d.live) {
        AdmittedAudited(env, attempts, d1.live, d.live);
      } else {
        var snapshot :| Admitted(env, a.req, snapshot)
          && FromImage(env.decode(snapshot), d.live, HeldBefore(d1.live));
        AdmittedNow(env, attempts, i - 1, snapshot, d.live, HeldBefore(d1.live));
      }
    }
  }

  lemma AdmittedNow(env: Env, attempts: seq<Attempt>, j: nat, snapshot: Bytes, live: Db, active: seq<ActiveHold>)
    requires j < |attempts| && attempts[j].RestoreOf? && Admitted(env, attempts[j].req, snapshot)
    requires FromImage(env.decode(snapshot), live, active)
    ensures AdmittedImage(env, attempts, live)
  {
  }

  lemma AdmittedAudited(env: Env, attempts: seq<Attempt>, live: Db, live': Db)
    requires AdmittedImage(env, attempts, live) && OnlyAudit(live, live')
    ensures AdmittedImage(env, attempts, live')
  {
    hide Admitted;
    var j, snapshot, active :|
      && 0 <= j < |attempts| && attempts[j].RestoreOf? && Admitted(env, attempts[j].req, snapshot)
      && FromImage(env.decode(snapshot), live, active);
    assert FromImage(env.decode(snapshot), live', active);
  }

  // ---- backup and restore together ----

  /** What is assumed of the primitives: the codec's, and that a snapshot reads back as the
      database it was taken of. */
  ghost predicate Faithful(env: Env) {
    BackupFormat.Ideal(env.codec) && forall db :: env.decode(env.encode(db)) == db
  }

  /** What every run draws: a timestamp line that reads as one, salt and nonce of their
      lengths, and a manifest within the length fields. */
  ghost predicate Drawn(env: Env, db: Db, job: Job) {
    var c, manifest := env.codec, ManifestFor(env, db, job);
    if job.format.V1? then BackupFormat.PlainTimestamp(c, job.createdAt) && |c.manifestJson(manifest)| < 0x1_0000_0000_0000_0000
    else
      && |job.salt| == 16 && |job.nonce| == 12
      && |c.headerJson(BackupFormat.HeaderFor(c, manifest, job.createdAt, job.salt, job.nonce))| < 0x1_0000_0000
  }

  /** A restore of what a backup of `db` wrote. */
  function RestoreOfBackup(env: Env, db: Db, job: Job, allowChainless: bool): Request {
    var file := BackupFile(env, db, job);
    Request(file, Some(env.sha256(file)), job.passphrase, allowChainless)
  }

  lemma BackupDecrypts(env: Env, db: Db, job: Job)
    requires Faithful(env) && Drawn(env, db, job)
    ensures BackupFormat.DecryptBackup(env.codec, BackupFile(env, db, job), job.passphrase)
         == Ok((ManifestFor(env, db, job), env.encode(db)))
  {
    hide BackupFormat.DecryptBackup, BackupFormat.VersionedFile, BackupFormat.V1File, BackupFormat.Bundle, BackupFormat.Ideal;
    var c, manifest, snapshot := env.codec, ManifestFor(env, db, job), env.encode(db);
    match job.format {
      case V1 => BackupFormat.V1RoundTrip(c, manifest, snapshot, job.passphrase, job.createdAt);
      case V2 => BackupFormat.VersionedRoundTrip(c, manifest, snapshot, job.passphrase, job.createdAt, BackupFormat.VERSION_V2, job.salt, job.nonce);
      case V3 => BackupFormat.VersionedRoundTrip(c, manifest, snapshot, job.passphrase, job.createdAt, BackupFormat.VERSION_V3, job.salt, job.nonce);
    }
  }

  /** What a backup file decrypts to: the snapshot, and a manifest that lists first the
      database under the name "brain.db", with its hash and size, then the configuration. */
  lemma BackupManifest(env: Env, db: Db, job: Job)
    requires Faithful(env) && Drawn(env, db, job)
    ensures var r := BackupFormat.DecryptBackup(env.codec, BackupFile(env, db, job), job.passphrase);
            && r.Ok? && env.decode(r.value.1) == db
            && r.value.0.createdAt == job.createdAt && r.value.0.version == job.appVersion
            && r.value.0.components
               == [BackupFormat.Component([98, 114, 97, 105, 110, 46, 100, 98], env.xxh3(r.value.1), |r.value.1|, false)] + job.config
  {
    hide BackupFormat.DecryptBackup, BackupFile, Drawn, BackupFormat.Ideal;
    BackupDecrypts(env, db, job);
  }

  /** What a backup wrote, in any of the three formats, is admitted as the snapshot of the
      database it was taken of, and as nothing else, exactly when that database's audit
      chain has the required posture. */
  lemma BackupIsAdmitted(env: Env, db: Db, job: Job, allowChainless: bool, snapshot: Bytes)
    requires Faithful(env) && Drawn(env, db, job)
    ensures Admitted(env, RestoreOfBackup(env, db, job, allowChainless), snapshot)
        <==> snapshot == env.encode(db) && (if db.audit.Some? then env.chainVerifies(db) else allowChainless)
  {
    hide BackupFormat.DecryptBackup, BackupFile, BackupFormat.Ideal, Drawn;
    BackupDecrypts(env, db, job);
  }

  /** End to end: a restore of what a backup wrote, when it succeeds, leaves the backed-up
      database with only re-applied holds and audit rows added, and the database that was
      live before complete beside it. */
  lemma RestoreGivesBack(env: Env, db: Db, job: Job, allowChainless: bool, io: Io, now: int, d0: Disk, d: Disk)
    requires Faithful(env) && Drawn(env, db, job)
    requires Restored(env, RestoreOfBackup(env, db, job, allowChainless), io, now, d0, d)
    ensures FromImage(db, d.live, HeldBefore(d0.live)) && d.bak == Complete(d0.live)
    ensures if db.audit.Some? then env.chainVerifies(db) else allowChainless
    ensures io.reopen && db.holds.Some? && (forall i :: 0 <= i < |HeldBefore(d0.live)| ==> io.insertHold(i)) ==>
              d.live.holds == Some(Reapplied(db.holds.value, HeldBefore(d0.live), now))
  {
    hide Admitted, RestoreOfBackup, Drawn, Posture, FromImage, Reapplied, HeldBefore, BackupFormat.Ideal;
    var req := RestoreOfBackup(env, db, job, allowChainless);
    var snapshot :| Admitted(env, req, snapshot)
      && FromImage(env.decode(snapshot), d.live, HeldBefore(d0.live))
      && (io.reopen && env.decode(snapshot).holds.Some? && (forall i :: 0 <= i < |HeldBefore(d0.live)| ==> io.insertHold(i)) ==>
            d.live.holds == Some(Reapplied(env.decode(snapshot).holds.value, HeldBefore(d0.live), now)));
    BackupIsAdmitted(env, db, job, allowChainless, snapshot);
  }

  // ---- what re-application guarantees ----

  lemma HasRowPush(rows: seq<HoldRow>, r: HoldRow, id: int)
    ensures HasRow(rows + [r], id) <==> HasRow(rows, id) || r.chunk == id
    ensures IsHeld(rows + [r], id) <==> IsHeld(rows, id) || (r.chunk == id && !r.released)
  {
    var all := rows + [r];
    assert all[|rows|] == r;
    assert forall k :: 0 <= k < |rows| ==> all[k] == rows[k];
  }

  lemma InActivePush(active: seq<ActiveHold>, h: ActiveHold, id: int)
    ensures InActive(active + [h], id) <==> InActive(active, id) || h.chunk == id
  {
    var all := active + [h];
    assert all[|active|] == h;
    assert forall k :: 0 <= k < |active| ==> all[k] == active[k];
  }

  /** When every insert succeeds: existing rows are untouched; an id has a row afterwards
      exactly when the image had one or the id was held before; and it is actively held
      exactly when the image held it, or it was held before and the image had no row for
      it. So a freeze lapses exactly for an id whose rows in the image are all released. */
  lemma {:induction false} ReappliedOutcome(rows: seq<HoldRow>, active: seq<ActiveHold>, now: int, id: int)
    ensures rows <= Reapplied(rows, active, now)
    ensures HasRow(Reapplied(rows, active, now), id) <==> HasRow(rows, id) || InActive(active, id)
    ensures IsHeld(Reapplied(rows, active, now), id)
       <==> IsHeld(rows, id) || (InActive(active, id) && !HasRow(rows, id))
  {
    hide HasRow, IsHeld, InActive;
    if active == [] {
      InActiveNone(id);
    } else {
      var front, h := active[..|active| - 1], active[|active| - 1];
      ReappliedOutcome(rows, front, now, id);
      ReappliedOutcome(rows, front, now, h.chunk);
      assert active == front + [h];
      InActivePush(front, h, id);
      HasRowPush(Reapplied(rows, front, now), HoldRow(h.chunk, h.reason, h.heldBy, now, false), id);
    }
  }

  /** The harvest before a restore: exactly the unreleased rows, with their reason and holder. */
  lemma {:induction false} HarvestExact(rows: seq<HoldRow>, h: ActiveHold)
    ensures h in ActiveHolds(rows)
       <==> exists k :: 0 <= k < |rows| && !rows[k].released
                        && rows[k].chunk == h.chunk && rows[k].reason == h.reason && rows[k].heldBy == h.heldBy
  {
    if rows != [] {
      var front, r := rows[..|rows| - 1], rows[|rows| - 1];
      HarvestExact(front, h);
      assert forall k :: 0 <= k < |front| ==> front[k] == rows[k];
      assert ActiveHolds(rows) == ActiveHolds(front)
             + (if r.released then [] else [ActiveHold(r.chunk, r.reason, r.heldBy)]);
    }
  }

  lemma HarvestedIds(rows: seq<HoldRow>, id: int)
    ensures InActive(ActiveHolds(rows), id) <==> IsHeld(rows, id)
  {
    var active := ActiveHolds(rows);
    if InActive(active, id) {
      var i :| 0 <= i < |active| && active[i].chunk == id;
      HarvestExact(rows, active[i]);
    }
    if IsHeld(rows, id) {
      var k :| 0 <= k < |rows| && rows[k].chunk == id && !rows[k].released;
      HarvestExact(rows, ActiveHold(id, rows[k].reason, rows[k].heldBy));
    }
  }

  /** An active hold on the id is in the database. */
  predicate HeldIn(db: Db, id: int) { db.holds.Some? && IsHeld(db.holds.value, id) }

  predicate RowIn(db: Db, id: int) { db.holds.Some? && HasRow(db.holds.value, id) }

  lemma HeldBeforeIds(db: Db, id: int)
    ensures InActive(HeldBefore(db), id) <==> HeldIn(db, id)
  {
    if db.holds.Some? {
      HarvestedIds(db.holds.value, id);
    } else {
      InActiveNone(id);
    }
  }

  /** Every insert of the re-application succeeds. */
  ghost predicate AllInserts(io: Io, d0: Disk) {
    io.reopen && forall i :: 0 <= i < |HeldBefore(d0.live)| ==> io.insertHold(i)
  }

  /** What a successful restore leaves, in terms of the file and the database it replaced. The
      file matched its sidecar, decrypted, and its snapshot matched the manifest. What is live
      has the image's data; its audit chain verified, or it has none and the operator allowed
      it; the replaced database is complete beside it; and
      of the holds, whatever inserts fail, none that neither database had and none of the
      image's lost. With all inserts succeeding and a hold table in the image, an id is held
      exactly when the image held it, or the replaced database did and the image had no row
      for it. */
  lemma RestoredOutcome(env: Env, req: Request, io: Io, now: int, d0: Disk, d: Disk, id: int)
    requires Restored(env, req, io, now, d0, d)
    ensures var r := BackupFormat.DecryptBackup(env.codec, req.file, req.passphrase);
            && req.sidecar == Some(env.sha256(req.file)) && r.Ok?
            && (exists i :: 0 <= i < |r.value.0.components| && r.value.0.components[i].name == BRAIN_DB
                            && r.value.0.components[i].xxh3 == env.xxh3(r.value.1))
            && var image := env.decode(r.value.1);
            && d.live.data == image.data && d.bak == Complete(d0.live)
            && (if image.audit.Some? then env.chainVerifies(image) else req.allowChainless)
            && (HeldIn(image, id) ==> HeldIn(d.live, id))
            && (HeldIn(d.live, id) ==> HeldIn(image, id) || (HeldIn(d0.live, id) && !RowIn(image, id)))
            && (AllInserts(io, d0) && image.holds.Some? ==>
                  (HeldIn(d.live, id) <==> HeldIn(image, id) || (HeldIn(d0.live, id) && !RowIn(image, id))))
  {
    hide BackupFormat.DecryptBackup, HeldBefore, IsHeld, HasRow, Reapplied, InActive;
    var r := BackupFormat.DecryptBackup(env.codec, req.file, req.passphrase);
    var snapshot := r.value.1;
    BrainDbListed(r.value.0.components);
    HeldBeforeIds(d0.live, id);
    var image := env.decode(snapshot);
    assert FromImage(image, d.live, HeldBefore(d0.live));
    if image.holds.Some? {
      GrownHolds(image.holds.value, d.live.holds.value, HeldBefore(d0.live), id);
      if AllInserts(io, d0) {
        ReappliedOutcome(image.holds.value, HeldBefore(d0.live), now, id);
      }
    }
  }

  lemma {:induction false} BrainDbListed(cs: seq<BackupFormat.Component>)
    ensures BrainDbHash(cs).Some? ==>
              exists i :: 0 <= i < |cs| && cs[i].name == BRAIN_DB && cs[i].xxh3 == BrainDbHash(cs).value
  {
    if cs != [] && cs[0].name != BRAIN_DB && BrainDbHash(cs).Some? {
      BrainDbListed(cs[1..]);
      var i :| 0 <= i < |cs[1..]| && cs[1..][i].name == BRAIN_DB && cs[1..][i].xxh3 == BrainDbHash(cs).value;
      assert cs[i + 1] == cs[1..][i];
    }
  }

  lemma GrownHolds(rows: seq<HoldRow>, after: seq<HoldRow>, active: seq<ActiveHold>, id: int)
    requires HoldsGrew(Some(rows), Some(after), active)
    ensures IsHeld(rows, id) ==> IsHeld(after, id)
    ensures IsHeld(after, id) ==> IsHeld(rows, id) || (InActive(active, id) && !HasRow(rows, id))
  {
    assert forall k :: 0 <= k < |rows| ==> after[k] == rows[k];
  }

  /** A row that re-application adds is the first active hold on its id, as of now. */
  lemma {:induction false} ReappliedRows(rows: seq<HoldRow>, active: seq<ActiveHold>, now: int, k: nat)
    requires |rows| <= k < |Reapplied(rows, active, now)|
    ensures exists i :: 0 <= i < |active| && !InActive(active[..i], active[i].chunk)
              && Reapplied(rows, active, now)[k] == HoldRow(active[i].chunk, active[i].reason, active[i].heldBy, now, false)
  {
    hide InActive, HasRow;
    if active != [] {
      var n := |active| - 1;
      var before := Reapplied(rows, active[..n], now);
      if k < |before| {
        ReappliedRows(rows, active[..n], now, k);
        var i :| 0 <= i < n && !InActive(active[..n][..i], active[i].chunk)
          && before[k] == HoldRow(active[i].chunk, active[i].reason, active[i].heldBy, now, false);
        assert active[..n][..i] == active[..i];
      } else {
        ReappliedOutcome(rows, active[..n], now, active[n].chunk);
      }
    }
  }

  lemma InActiveNone(id: int)
    ensures !InActive([], id)
  {
  }

  /** The holds that get a row: the first on an id the image has no row for. */
  ghost function Inserted(rows: seq<HoldRow>, active: seq<ActiveHold>): nat {
    if active == [] then 0
    else
      var n := |active| - 1;
      Inserted(rows, active[..n])
      + (if HasRow(rows, active[n].chunk) || InActive(active[..n], active[n].chunk) then 0 else 1)
  }

  /** Rows are added for exactly those holds; a second hold on one id is not re-applied. */
  lemma {:induction false} ReappliedCount(rows: seq<HoldRow>, active: seq<ActiveHold>, now: int)
    ensures |Reapplied(rows, active, now)| == |rows| + Inserted(rows, active)
  {
    if active != [] {
      var n := |active| - 1;
      ReappliedCount(rows, active[..n], now);
      ReappliedOutcome(rows, active[..n], now, active[n].chunk);
    }
  }

  /** The documented promise, that a hold survives a restore, fails for an image in which
      the id's hold was already released. */
  lemma LapsedHoldExample()
    ensures exists rows, active, id ::
              InActive(active, id) && !IsHeld(Reapplied(rows, active, 0), id)
  {
    var rows := [HoldRow(7, "case", "ops", 0, true)];
    var active := [ActiveHold(7, "case", "ops")];
    assert active[0].chunk == 7 && rows[0].chunk == 7;
    ReappliedOutcome(rows, active, 0, 7);
    assert InActive(active, 7) && !IsHeld(rows, 7);
  }
}
