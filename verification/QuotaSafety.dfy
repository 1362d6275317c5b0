/** No interleaving of uploads, expiry, archiving, purging and deletion overruns a storage limit. */
module QuotaSafety {
  import opened Options
  import opened Tables
  import opened Storage
  import opened Transactions

  /** Every foreign key has its row. */
  ghost predicate Grounded(db: Db) {
    && (forall f :: f in db.files && f.batch.Some? ==> FindBatch(db.batches, f.batch.value).Some?)
    && (forall b :: b in db.batches && b.drop.Some? ==> FindDrop(db.drops, b.drop.value).Some?)
    && (forall r :: r in db.reservations && r.drop.Some? ==> FindDrop(db.drops, r.drop.value).Some?)
  }

  /** No limit is newly imposed or lowered. */
  ghost predicate Loosens(db: Db, db': Db) {
    forall c: Cap :: Limit(db', c) <= 0 || 0 < Limit(db, c) <= Limit(db', c)
  }

  /** At every instant and for every limit, no more is counted than before. */
  ghost predicate Shrinks(db: Db, db': Db) {
    forall c: Cap, t: Time :: Usage(db', c, t) <= Usage(db, c, t)
  }

  /** A transaction that can only free capacity. */
  ghost predicate Frees(db: Db, db': Db) {
    Grounded(db') && Loosens(db, db') && Shrinks(db, db')
  }

  // ----- time only frees capacity

  lemma UsageFalls(db: Db, c: Cap, t: Time, t': Time)
    requires t <= t'
    ensures Usage(db, c, t') <= Usage(db, c, t)
  {
    TotalMono(db.files, FileWeight(c, t', db.batches), FileWeight(c, t, db.batches));
    TotalMono(db.reservations, ReservationWeight(c, t'), ReservationWeight(c, t));
  }

  // ----- transactions that free capacity

  lemma FileUpdateFrees(db: Db, g: FileRow -> FileRow)
    requires Grounded(db)
    requires forall f :: g(f) == f.(downloads := g(f).downloads, archivedAt := g(f).archivedAt)
                      && (f.archivedAt.Some? ==> g(f).archivedAt.Some?)
    ensures Frees(db, db.(files := Update(db.files, g)))
  {
    var db' := db.(files := Update(db.files, g));
    forall c: Cap, t: Time ensures Usage(db', c, t) <= Usage(db, c, t) {
      TotalUpdate(db.files, g, FileWeight(c, t, db.batches));
    }
    forall f | f in db'.files && f.batch.Some? ensures FindBatch(db'.batches, f.batch.value).Some? {
      UpdateIn(db.files, g, f);
    }
    assert forall c: Cap :: Limit(db', c) == Limit(db, c);
  }

  lemma FileKeepFrees(db: Db, p: FileRow -> bool)
    requires Grounded(db)
    ensures Frees(db, db.(files := Keep(db.files, p)))
  {
    var db' := db.(files := Keep(db.files, p));
    forall c: Cap, t: Time ensures Usage(db', c, t) <= Usage(db, c, t) {
      TotalKeep(db.files, p, FileWeight(c, t, db.batches));
    }
    forall f | f in db'.files && f.batch.Some? ensures FindBatch(db'.batches, f.batch.value).Some? {
      KeepIn(db.files, p, f);
    }
    assert forall c: Cap :: Limit(db', c) == Limit(db, c);
  }

  lemma ReservationKeepFrees(db: Db, p: Reservation -> bool)
    requires Grounded(db)
    ensures Frees(db, db.(reservations := Keep(db.reservations, p)))
  {
    var db' := db.(reservations := Keep(db.reservations, p));
    forall c: Cap, t: Time ensures Usage(db', c, t) <= Usage(db, c, t) {
      TotalKeep(db.reservations, p, ReservationWeight(c, t));
    }
    forall r | r in db'.reservations && r.drop.Some? ensures FindDrop(db'.drops, r.drop.value).Some? {
      KeepIn(db.reservations, p, r);
    }
    assert forall c: Cap :: Limit(db', c) == Limit(db, c);
  }

  lemma BatchUpdateFrees(db: Db, g: BatchRow -> BatchRow)
    requires Grounded(db)
    requires forall b :: g(b) == b.(downloads := g(b).downloads, archivedAt := g(b).archivedAt)
                      && (b.archivedAt.Some? ==> g(b).archivedAt.Some?)
    ensures Frees(db, db.(batches := Update(db.batches, g)))
  {
    var db' := db.(batches := Update(db.batches, g));
    forall f | f in db.files && f.batch.Some?
      ensures FindBatch(db'.batches, f.batch.value).Some?
      ensures forall d :: InDrop(db'.batches, f.batch, d) == InDrop(db.batches, f.batch, d)
    {
      FindBatchUpdate(db.batches, g, f.batch.value);
    }
    forall c: Cap, t: Time ensures Usage(db', c, t) <= Usage(db, c, t) {
      TotalMono(db.files, FileWeight(c, t, db'.batches), FileWeight(c, t, db.batches));
      TotalUpdate(db.batches, g, BatchWeight(c));
    }
    forall b | b in db'.batches && b.drop.Some? ensures FindDrop(db'.drops, b.drop.value).Some? {
      UpdateIn(db.batches, g, b);
    }
    assert forall c: Cap :: Limit(db', c) == Limit(db, c);
  }

  lemma DropArchiveFrees(db: Db, now: Time)
    requires Grounded(db)
    ensures Frees(db, ArchiveDrops(db, now))
  {
    var g := (d: DropRow) => if d.archivedAt.None? && Lapsed(d.expiresAt, now) then d.(archivedAt := Some(now)) else d;
    var db' := ArchiveDrops(db, now);
    assert db'.drops == Update(db.drops, g);
    forall id: nat
      ensures FindDrop(db'.drops, id).Some? == FindDrop(db.drops, id).Some?
      ensures FindDrop(db.drops, id).Some? ==> FindDrop(db'.drops, id).value.limits == FindDrop(db.drops, id).value.limits
    {
      FindDropUpdate(db.drops, g, id);
    }
    forall c: Cap ensures Limit(db', c) == Limit(db, c) {
    }
    forall c: Cap, t: Time ensures Usage(db', c, t) <= Usage(db, c, t) {
    }
  }

  lemma BatchDeleteFrees(db: Db, dead: set<nat>)
    requires Grounded(db)
    ensures Frees(db, DeleteBatches(db, dead))
    ensures forall b :: b in DeleteBatches(db, dead).batches ==> b in db.batches && b.id !in dead
  {
    var db' := DeleteBatches(db, dead);
    var p, q := (b: BatchRow) => b.id !in dead, OutsideBatches(dead);
    assert db'.batches == Keep(db.batches, p) && db'.files == Keep(db.files, q);
    forall f | f in db'.files
      ensures f in db.files && (f.batch.Some? ==> FindBatch(db'.batches, f.batch.value).Some?)
      ensures forall d :: InDrop(db'.batches, f.batch, d) == InDrop(db.batches, f.batch, d)
    {
      KeepIn(db.files, q, f);
      if f.batch.Some? {
        FindBatchKeep(db.batches, dead, f.batch.value);
      }
    }
    forall c: Cap, t: Time ensures Usage(db', c, t) <= Usage(db, c, t) {
      TotalMono(db'.files, FileWeight(c, t, db'.batches), FileWeight(c, t, db.batches));
      TotalKeep(db.files, q, FileWeight(c, t, db.batches));
      TotalKeep(db.batches, p, BatchWeight(c));
    }
    forall b | b in db'.batches ensures b in db.batches && b.id !in dead {
      KeepIn(db.batches, p, b);
    }
    assert forall c: Cap :: Limit(db', c) == Limit(db, c);
  }

  lemma DropDeleteFrees(db: Db, dead: set<nat>)
    requires Grounded(db)
    ensures Frees(db, DeleteDrops(db, dead))
  {
    var mid := DeleteBatches(db, BatchesOf(db, dead));
    BatchDeleteFrees(db, BatchesOf(db, dead));
    var db' := DeleteDrops(db, dead);
    var q := (r: Reservation) => r.drop.None? || r.drop.value !in dead;
    assert db'.reservations == Keep(mid.reservations, q);
    forall id: nat ensures FindDrop(db'.drops, id) == if id in dead then None else FindDrop(db.drops, id) {
      FindDropKeep(db.drops, dead, id);
    }
    forall c: Cap ensures Limit(db', c) <= 0 || 0 < Limit(db, c) <= Limit(db', c) {
    }
    forall c: Cap, t: Time ensures Usage(db', c, t) <= Usage(db, c, t) {
      TotalKeep(mid.reservations, q, ReservationWeight(c, t));
      assert Usage(mid, c, t) <= Usage(db, c, t);
    }
    forall r | r in db'.reservations && r.drop.Some? ensures FindDrop(db'.drops, r.drop.value).Some? {
      KeepIn(mid.reservations, q, r);
    }
    forall b | b in db'.batches && b.drop.Some? ensures FindDrop(db'.drops, b.drop.value).Some? {
      assert b in db.batches && b.id !in BatchesOf(db, dead);
    }
  }

  lemma BatchCreateFrees(db: Db, id: nat, owner: nat, expiresAt: Option<Time>, maxDownloads: Option<int>)
    requires Grounded(db)
    ensures Frees(db, CreateBatch(db, id, owner, expiresAt, maxDownloads))
  {
    var db' := CreateBatch(db, id, owner, expiresAt, maxDownloads);
    if FindBatch(db.batches, id).None? {
      BatchAppended(db, BatchRow(id, owner, None, expiresAt, maxDownloads, 0, None));
    }
  }

  /** A new batch row changes nothing but the count of open submissions of its drop. */
  lemma BatchAppended(db: Db, b: BatchRow)
    requires Grounded(db) && FindBatch(db.batches, b.id).None?
    requires b.drop.Some? ==> FindDrop(db.drops, b.drop.value).Some?
    ensures var db' := db.(batches := db.batches + [b]);
      && Grounded(db') && (forall c: Cap :: Limit(db', c) == Limit(db, c))
      && forall c: Cap, t: Time :: Usage(db', c, t) <= Usage(db, c, t) + BatchWeight(c)(b)
  {
    var db' := db.(batches := db.batches + [b]);
    forall f | f in db.files && f.batch.Some?
      ensures FindBatch(db'.batches, f.batch.value) == FindBatch(db.batches, f.batch.value)
    {
      FindBatchAppend(db.batches, b, f.batch.value);
    }
    forall c: Cap, t: Time ensures Usage(db', c, t) <= Usage(db, c, t) + BatchWeight(c)(b) {
      TotalMono(db.files, FileWeight(c, t, db'.batches), FileWeight(c, t, db.batches));
      TotalAppend(db.batches, b, BatchWeight(c));
    }
  }

  ghost predicate RaisesQuota(db: Db, user: nat, q: UserQuota) {
    && (q.bytes <= 0 || 0 < db.quota(user).bytes <= q.bytes)
    && (q.files <= 0 || 0 < db.quota(user).files <= q.files)
  }

  lemma QuotaRaiseFrees(db: Db, user: nat, q: UserQuota)
    requires Grounded(db)
    requires RaisesQuota(db, user, q)
    ensures Frees(db, SetQuota(db, user, q))
  {
    var db' := SetQuota(db, user, q);
    forall c: Cap, t: Time ensures Usage(db', c, t) <= Usage(db, c, t) {
    }
  }

  lemma {:induction false} TotalZero<R>(rows: seq<R>, w: R -> nat)
    requires forall x :: x in rows ==> w(x) == 0
    ensures Total(rows, w) == 0
  {
    if |rows| > 0 {
      assert forall x :: x in rows[1..] ==> x in rows;
      TotalZero(rows[1..], w);
    }
  }

  // ----- the state of the system

  /** `high` is the latest timestamp any admission has used; `clock` is now. */
  datatype Sys = Sys(db: Db, clock: Time, high: Time)

  ghost predicate Safe(s: Sys) {
    && Grounded(s.db) && s.high <= s.clock
    && forall c: Cap, t: Time :: t >= s.high ==> Respects(s.db, c, t)
  }

  lemma FreeingIsSafe(s: Sys, db': Db)
    requires Safe(s) && Frees(s.db, db')
    ensures Safe(s.(db := db'))
  {
    forall c: Cap, t: Time | t >= s.high ensures Respects(db', c, t) {
      assert Respects(s.db, c, t);
      assert Usage(db', c, t) <= Usage(s.db, c, t);
      assert Limit(db', c) <= 0 || 0 < Limit(s.db, c) <= Limit(db', c);
    }
  }

  lemma NewDropIsSafe(s: Sys, id: nat, owner: nat, limits: DropLimits, expiresAt: Option<Time>)
    requires Safe(s)
    ensures Safe(s.(db := CreateDrop(s.db, id, owner, limits, expiresAt)))
  {
    var db, db' := s.db, CreateDrop(s.db, id, owner, limits, expiresAt);
    if FindDrop(db.drops, id).None? {
      var row := DropRow(id, owner, limits, expiresAt, None, None);
      forall d: nat ensures FindDrop(db'.drops, d) == if FindDrop(db.drops, d).Some? then FindDrop(db.drops, d)
                                                      else if d == id then Some(row) else None {
        FindDropAppend(db.drops, row, d);
      }
      forall c: Cap, t: Time | t >= s.high ensures Respects(db', c, t) {
        assert Respects(db, c, t);
        if Limit(db, c) != Limit(db', c) {
          NewDropUnused(db, id, c, t);
        }
      }
    }
  }

  lemma NewDropUnused(db: Db, id: nat, c: Cap, t: Time)
    requires Grounded(db) && FindDrop(db.drops, id).None?
    requires c == DropBytes(id) || c == DropFiles(id) || c == Submissions(id)
          || (c.SubmissionFiles? && c.drop == id)
    ensures Usage(db, c, t) == 0
  {
    forall f | f in db.files ensures FileWeight(c, t, db.batches)(f) == 0 {
      if f.batch.Some? {
        FindBatchIn(db.batches, f.batch.value);
      }
    }
    TotalZero(db.files, FileWeight(c, t, db.batches));
    TotalZero(db.reservations, ReservationWeight(c, t));
    TotalZero(db.batches, BatchWeight(c));
  }

  // ----- admissions

  function Max(a: Time, b: Time): Time { if a < b then b else a }

  /** What an accepted check at `now` guarantees from `now` on, and keeps from `high` on. */
  lemma AdmissionFits(s: Sys, db': Db, now: Time, user: nat, bytes: nat, target: Option<DropTarget>, c: Cap, t: Time)
    requires Safe(s) && Frees(s.db, db') && Violation(db', now, user, bytes, target).None?
    requires t >= Max(s.high, now)
    ensures Limit(db', c) > 0 ==> Usage(db', c, t) + Added(c, user, bytes, target) <= Limit(db', c)
  {
    FreeingIsSafe(s, db');
    ViolationIffOverrun(db', now, user, bytes, target);
    assert Respects(db', c, t);
    UsageFalls(db', c, now, t);
    if Added(c, user, bytes, target) > 0 {
      assert Fits(db', c, now, Added(c, user, bytes, target));
    }
  }

  lemma ReserveIsSafe(s: Sys, now: Time, user: nat, bytes: nat, target: Option<DropTarget>, id: nat)
    requires Safe(s) && now <= s.clock && Reserve(s.db, now, user, bytes, target, id).Done?
    ensures Safe(Sys(Reserve(s.db, now, user, bytes, target, id).db, s.clock, Max(s.high, now)))
  {
    var db, db' := s.db, Reserve(s.db, now, user, bytes, target, id).db;
    var r := Reservation(id, user, bytes, OptDrop(target), OptBatch(target), now);
    assert Frees(db, db);
    ViolationIffOverrun(db, now, user, bytes, target);
    forall c: Cap, t: Time | t >= Max(s.high, now) ensures Respects(db', c, t) {
      AdmissionFits(s, db, now, user, bytes, target, c, t);
      TotalAppend(db.reservations, r, ReservationWeight(c, t));
      assert ReservationWeight(c, t)(r) <= Added(c, user, bytes, target);
      assert Limit(db', c) == Limit(db, c);
    }
  }

  /** A file goes into the submission it was checked for, and an upload outside drops into no submission. */
  predicate Placed(db: Db, target: Option<DropTarget>, batch: Option<nat>) {
    match target
    case Some(t) => batch == Some(t.batch) &&
      (var row := FindBatch(db.batches, t.batch); row.Some? ==> row.value.drop == Some(t.drop))
    case None => batch.Some? ==>
      (var row := FindBatch(db.batches, batch.value); row.Some? ==> row.value.drop.None?)
  }

  lemma FinalizeIsSafe(s: Sys, now: Time, reservation: nat, target: Option<DropTarget>, row: FileRow)
    requires Safe(s) && now <= s.clock && Placed(s.db, target, row.batch)
    requires Finalize(s.db, now, reservation, target, row).Done?
    ensures Safe(Sys(Finalize(s.db, now, reservation, target, row).db, s.clock, Max(s.high, now)))
  {
    var rest, db' := Release(s.db, reservation), Finalize(s.db, now, reservation, target, row).db;
    ReservationKeepFrees(s.db, (r: Reservation) => r.id != reservation);
    forall c: Cap, t: Time | t >= Max(s.high, now) ensures Respects(db', c, t) {
      AdmissionFits(s, rest, now, row.owner, row.size, target, c, t);
      TotalAppend(rest.files, row, FileWeight(c, t, rest.batches));
      assert FileWeight(c, t, rest.batches)(row) <= Added(c, row.owner, row.size, target);
      assert Limit(db', c) == Limit(rest, c);
    }
  }

  lemma OpenSubmissionIsSafe(s: Sys, now: Time, drop: nat, id: nat, expiresAt: Option<Time>)
    requires Safe(s) && OpenSubmission(s.db, now, drop, id, expiresAt).Done?
    ensures Safe(s.(db := OpenSubmission(s.db, now, drop, id, expiresAt).db))
  {
    var db, db' := s.db, OpenSubmission(s.db, now, drop, id, expiresAt).db;
    var d := FindDrop(db.drops, drop).value;
    var b := BatchRow(id, d.owner, Some(drop), expiresAt, None, 0, None);
    BatchAppended(db, b);
    forall c: Cap, t: Time | t >= s.high ensures Respects(db', c, t) {
      assert Respects(db, c, t);
      assert Limit(db', c) == Limit(db, c);
      assert Usage(db', c, t) <= Usage(db, c, t) + BatchWeight(c)(b);
      if c == Submissions(drop) {
        forall f | f in db.files ensures FileWeight(c, t, db.batches)(f) == 0 {
        }
        TotalZero(db.files, FileWeight(c, t, db.batches));
        TotalZero(db.reservations, ReservationWeight(c, t));
      }
    }
  }

  // ----- every step of every run

  datatype Step =
    | Tick(to: Time)
    | StepReserve(now: Time, user: nat, bytes: nat, target: Option<DropTarget>, id: nat)
    | StepFinalize(now: Time, reservation: nat, target: Option<DropTarget>, row: FileRow)
    | StepOpenSubmission(now: Time, drop: nat, id: nat, expiresAt: Option<Time>)
    | StepRelease(id: nat)
    | StepSweepReservations(now: Time)
    | StepSweepFiles(now: Time)
    | StepArchiveFile(now: Time, id: nat)
    | StepPurgeFiles(now: Time)
    | StepSweepBatches(now: Time)
    | StepArchiveBatch(now: Time, id: nat)
    | StepArchiveBatchMembers(now: Time, id: nat)
    | StepPurgeBatches(now: Time)
    | StepSweepDropFiles(now: Time)
    | StepSweepDropBatches(now: Time)
    | StepArchiveDrops(now: Time)
    | StepPurgeDrops(now: Time)
    | StepDeleteFiles(ids: set<nat>, caller: Option<nat>)
    | StepDeleteDropFiles(drop: nat)
    | StepDeleteDrop(drop: nat)
    | StepConsumeFile(now: Time, id: nat)
    | StepConsumeBatch(now: Time, id: nat)
    | StepCreateBatch(id: nat, owner: nat, expiresAt: Option<Time>, maxDownloads: Option<int>)
    | StepCreateDrop(id: nat, owner: nat, limits: DropLimits, expiresAt: Option<Time>)
    | StepSetQuota(user: nat, q: UserQuota)

  /** Deleting by id, restricted to the caller's own rows unless the caller is an admin. */
  predicate Deletable(f: FileRow, ids: set<nat>, owner: Option<nat>) {
    f.id in ids && (owner.None? || f.owner == owner.value)
  }

  /** The transaction's timestamp is not in the future, and an upload is placed where it was checked. */
  ghost predicate Enabled(s: Sys, step: Step) {
    match step
    case Tick(to) => to >= s.clock
    case StepReserve(now, _, _, _, _) => now <= s.clock
    case StepFinalize(now, _, target, row) => now <= s.clock && Placed(s.db, target, row.batch)
    case StepSetQuota(user, q) => RaisesQuota(s.db, user, q)
    case _ => true
  }

  /** A refused transaction rolls back. */
  function After(s: Sys, now: Time, o: Outcome): Sys {
    match o
    case Refused(_) => s
    case Done(db) => Sys(db, s.clock, Max(s.high, now))
  }

  function Next(s: Sys, step: Step): Sys {
    match step
    case Tick(to) => s.(clock := to)
    case StepReserve(now, user, bytes, target, id) => After(s, now, Reserve(s.db, now, user, bytes, target, id))
    case StepFinalize(now, reservation, target, row) => After(s, now, Finalize(s.db, now, reservation, target, row))
    case StepOpenSubmission(now, drop, id, expiresAt) =>
      After(s, s.high, OpenSubmission(s.db, now, drop, id, expiresAt))
    case StepRelease(id) => s.(db := Release(s.db, id))
    case StepSweepReservations(now) => s.(db := SweepReservations(s.db, now))
    case StepSweepFiles(now) => s.(db := SweepFiles(s.db, now))
    case StepArchiveFile(now, id) => s.(db := ArchiveFile(s.db, now, id))
    case StepPurgeFiles(now) => s.(db := PurgeFiles(s.db, now))
    case StepSweepBatches(now) => s.(db := SweepBatches(s.db, now))
    case StepArchiveBatch(now, id) => s.(db := ArchiveBatch(s.db, now, id))
    case StepArchiveBatchMembers(now, id) => s.(db := ArchiveBatchMembers(s.db, now, id))
    case StepPurgeBatches(now) => s.(db := PurgeBatches(s.db, now))
    case StepSweepDropFiles(now) => s.(db := SweepDropFiles(s.db, now))
    case StepSweepDropBatches(now) => s.(db := SweepDropBatches(s.db, now))
    case StepArchiveDrops(now) => s.(db := ArchiveDrops(s.db, now))
    case StepPurgeDrops(now) => s.(db := PurgeDrops(s.db, now))
    case StepDeleteFiles(ids, owner) => s.(db := DeleteFiles(s.db, (f: FileRow) => Deletable(f, ids, owner)))
    case StepDeleteDropFiles(drop) => s.(db := DeleteDropFiles(s.db, drop))
    case StepDeleteDrop(drop) => s.(db := DeleteDrops(s.db, {drop}))
    case StepConsumeFile(now, id) => s.(db := ConsumeFile(s.db, now, id))
    case StepConsumeBatch(now, id) => s.(db := ConsumeBatch(s.db, now, id))
    case StepCreateBatch(id, owner, expiresAt, maxDownloads) => s.(db := CreateBatch(s.db, id, owner, expiresAt, maxDownloads))
    case StepCreateDrop(id, owner, limits, expiresAt) => s.(db := CreateDrop(s.db, id, owner, limits, expiresAt))
    case StepSetQuota(user, q) => s.(db := SetQuota(s.db, user, q))
  }

  lemma ArchivingFrees(db: Db, now: Time, p: FileRow -> bool)
    requires Grounded(db)
    ensures Frees(db, ArchiveFiles(db, now, p))
  {
    ArchiveIfKeeps(now, p);
    FileUpdateFrees(db, ArchiveIf(now, p));
  }

  lemma BatchArchivingFrees(db: Db, now: Time, p: BatchRow -> bool)
    requires Grounded(db)
    ensures Frees(db, ArchiveBatches(db, now, p))
  {
    BatchUpdateFrees(db, ArchiveBatchIf(now, p));
  }

  lemma ConsumingFrees(db: Db, now: Time, id: nat)
    requires Grounded(db)
    ensures Frees(db, ConsumeFile(db, now, id)) && Frees(db, ConsumeBatch(db, now, id))
  {
    FileUpdateFrees(db, CountFile(now, id));
    BatchUpdateFrees(db, CountBatch(now, id));
  }

  /** Every step other than the clock, the admissions and a new drop only frees capacity. */
  lemma OtherStepsFree(s: Sys, step: Step)
    requires Grounded(s.db) && Enabled(s, step)
    requires !step.Tick? && !step.StepReserve? && !step.StepFinalize? && !step.StepOpenSubmission? && !step.StepCreateDrop?
    ensures Next(s, step) == s.(db := Next(s, step).db) && Frees(s.db, Next(s, step).db)
  {
    hide Frees;
    var db := s.db;
    match step
    case StepRelease(id) => ReservationKeepFrees(db, (r: Reservation) => r.id != id);
    case StepSweepReservations(now) => ReservationKeepFrees(db, (r: Reservation) => Live(r, now));
    case StepSweepFiles(now) => ArchivingFrees(db, now, (f: FileRow) => DeadFile(f, now));
    case StepArchiveFile(now, id) => ArchivingFrees(db, now, (f: FileRow) => f.id == id);
    case StepArchiveBatchMembers(now, id) => ArchivingFrees(db, now, (f: FileRow) => f.batch == Some(id));
    case StepSweepDropFiles(now) =>
      ArchivingFrees(db, now, (f: FileRow) => InDrops(db, f.batch, LapsedDrops(db, now)));
    case StepPurgeFiles(now) => FileKeepFrees(db, Not((f: FileRow) => PastRetention(f.archivedAt, now)));
    case StepDeleteFiles(ids, owner) => FileKeepFrees(db, Not((f: FileRow) => Deletable(f, ids, owner)));
    case StepDeleteDropFiles(drop) => FileKeepFrees(db, Not((f: FileRow) => InDrop(db.batches, f.batch, drop)));
    case StepSweepBatches(now) => BatchArchivingFrees(db, now, (b: BatchRow) => DeadBatch(b, now));
    case StepArchiveBatch(now, id) => BatchArchivingFrees(db, now, (b: BatchRow) => b.id == id);
    case StepSweepDropBatches(now) =>
      BatchArchivingFrees(db, now, (b: BatchRow) => b.drop.Some? && b.drop.value in LapsedDrops(db, now));
    case StepPurgeBatches(now) =>
      BatchDeleteFrees(db, set b | b in db.batches && PastRetention(b.archivedAt, now) :: b.id);
    case StepArchiveDrops(now) => DropArchiveFrees(db, now);
    case StepPurgeDrops(now) =>
      DropDeleteFrees(db, set d | d in db.drops && PastRetention(d.archivedAt, now) :: d.id);
    case StepDeleteDrop(drop) => DropDeleteFrees(db, {drop});
    case StepConsumeFile(now, id) => ConsumingFrees(db, now, id);
    case StepConsumeBatch(now, id) => ConsumingFrees(db, now, id);
    case StepCreateBatch(id, owner, expiresAt, maxDownloads) => BatchCreateFrees(db, id, owner, expiresAt, maxDownloads);
    case StepSetQuota(user, q) => QuotaRaiseFrees(db, user, q);
    case _ =>
  }

  lemma NextIsSafe(s: Sys, step: Step)
    requires Safe(s) && Enabled(s, step)
    ensures Safe(Next(s, step))
  {
    hide Frees, Reserve, Finalize, OpenSubmission;
    match step
    case Tick(_) =>
    case StepReserve(now, user, bytes, target, id) =>
      if Reserve(s.db, now, user, bytes, target, id).Done? {
        ReserveIsSafe(s, now, user, bytes, target, id);
      }
    case StepFinalize(now, reservation, target, row) =>
      if Finalize(s.db, now, reservation, target, row).Done? {
        FinalizeIsSafe(s, now, reservation, target, row);
      }
    case StepOpenSubmission(now, drop, id, expiresAt) =>
      if OpenSubmission(s.db, now, drop, id, expiresAt).Done? {
        OpenSubmissionIsSafe(s, now, drop, id, expiresAt);
      }
    case StepCreateDrop(id, owner, limits, expiresAt) => NewDropIsSafe(s, id, owner, limits, expiresAt);
    case _ =>
      OtherStepsFree(s, step);
      FreeingIsSafe(s, Next(s, step).db);
  }

  // ----- whole runs

  /** The state after a run. */
  function Run(s: Sys, steps: seq<Step>): Sys {
    if |steps| == 0 then s else Next(Run(s, steps[..|steps| - 1]), steps[|steps| - 1])
  }

  ghost predicate Legal(s: Sys, steps: seq<Step>) {
    |steps| > 0 ==>
      Legal(s, steps[..|steps| - 1]) && Enabled(Run(s, steps[..|steps| - 1]), steps[|steps| - 1])
  }

  /** An empty database at the given time. */
  function Empty(quota: nat -> UserQuota, totalBytes: int, start: Time): Sys {
    Sys(Db([], [], [], [], quota, totalBytes), start, start)
  }

  lemma {:induction false} RunIsSafe(quota: nat -> UserQuota, totalBytes: int, start: Time, steps: seq<Step>)
    requires Legal(Empty(quota, totalBytes, start), steps)
    ensures Safe(Run(Empty(quota, totalBytes, start), steps))
  {
    if |steps| > 0 {
      RunIsSafe(quota, totalBytes, start, steps[..|steps| - 1]);
      NextIsSafe(Run(Empty(quota, totalBytes, start), steps[..|steps| - 1]), steps[|steps| - 1]);
    }
  }

  /** After every run, stored and live-reserved bytes and counts are within the instance's, every
      user's, every drop's and every submission's limit, and open submissions within theirs. */
  lemma QuotaSafety(quota: nat -> UserQuota, totalBytes: int, start: Time, steps: seq<Step>, c: Cap)
    requires Legal(Empty(quota, totalBytes, start), steps)
    ensures var s := Run(Empty(quota, totalBytes, start), steps);
      Limit(s.db, c) > 0 ==> Usage(s.db, c, s.clock) <= Limit(s.db, c)
  {
    RunIsSafe(quota, totalBytes, start, steps);
    var s := Run(Empty(quota, totalBytes, start), steps);
    assert Respects(s.db, c, s.clock);
  }
}
