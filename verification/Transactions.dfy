/** The transactions that run without the quota lock: expiry, archiving, purging, deleting, downloading. */
module Transactions {
  import opened Options
  import opened Tables
  import opened Storage

  // ----- archiving

  function Archived(f: FileRow, now: Time): FileRow {
    if f.archivedAt.None? then f.(archivedAt := Some(now)) else f
  }

  function ArchiveIf(now: Time, p: FileRow -> bool): FileRow -> FileRow {
    (f: FileRow) => if p(f) then Archived(f, now) else f
  }

  /** Archiving changes no more than the archive time, and sets it once. */
  lemma ArchiveIfKeeps(now: Time, p: FileRow -> bool)
    ensures forall f: FileRow :: ArchiveIf(now, p)(f) == f.(archivedAt := ArchiveIf(now, p)(f).archivedAt)
    ensures forall f: FileRow :: f.archivedAt.Some? ==> ArchiveIf(now, p)(f) == f
    ensures forall f: FileRow :: ArchiveIf(now, p)(f).archivedAt.None? ==> ArchiveIf(now, p)(f) == f && !p(f)
  {
    forall f: FileRow
      ensures ArchiveIf(now, p)(f) == if p(f) then Archived(f, now) else f
    {
    }
  }

  /** UPDATE files SET archived_at = NOW() WHERE archived_at IS NULL AND ... */
  function ArchiveFiles(db: Db, now: Time, p: FileRow -> bool): Db {
    db.(files := Update(db.files, ArchiveIf(now, p)))
  }

  function ArchiveBatchIf(now: Time, p: BatchRow -> bool): BatchRow -> BatchRow {
    (b: BatchRow) => if p(b) && b.archivedAt.None? then b.(archivedAt := Some(now)) else b
  }

  function ArchiveBatches(db: Db, now: Time, p: BatchRow -> bool): Db {
    db.(batches := Update(db.batches, ArchiveBatchIf(now, p)))
  }

  function ArchiveDrops(db: Db, now: Time): Db {
    db.(drops := Update(db.drops,
          (d: DropRow) => if d.archivedAt.None? && Lapsed(d.expiresAt, now) then d.(archivedAt := Some(now)) else d))
  }

  predicate Lapsed(expiresAt: Option<Time>, now: Time) {
    expiresAt.Some? && expiresAt.value <= now
  }

  predicate Spent(maxDownloads: Option<int>, downloads: nat) {
    maxDownloads.Some? && downloads >= maxDownloads.value
  }

  /** A link that expired or whose last slot is gone. */
  predicate DeadFile(f: FileRow, now: Time) {
    f.archivedAt.None? && (Lapsed(f.expiresAt, now) || Spent(f.maxDownloads, f.downloads))
  }

  predicate DeadBatch(b: BatchRow, now: Time) {
    b.archivedAt.None? && (Lapsed(b.expiresAt, now) || Spent(b.maxDownloads, b.downloads))
  }

  predicate PastRetention(archivedAt: Option<Time>, now: Time) {
    archivedAt.Some? && archivedAt.value <= now - ARCHIVE_RETENTION
  }

  function SweepFiles(db: Db, now: Time): Db {
    ArchiveFiles(db, now, (f: FileRow) => DeadFile(f, now))
  }

  function ArchiveFile(db: Db, now: Time, id: nat): Db {
    ArchiveFiles(db, now, (f: FileRow) => f.id == id)
  }

  function ArchiveBatchMembers(db: Db, now: Time, batch: nat): Db {
    ArchiveFiles(db, now, (f: FileRow) => f.batch == Some(batch))
  }

  function SweepBatches(db: Db, now: Time): Db {
    ArchiveBatches(db, now, (b: BatchRow) => DeadBatch(b, now))
  }

  function ArchiveBatch(db: Db, now: Time, id: nat): Db {
    ArchiveBatches(db, now, (b: BatchRow) => b.id == id)
  }

  /** The drops whose own expiry has passed. */
  function LapsedDrops(db: Db, now: Time): set<nat> {
    set d | d in db.drops && Lapsed(d.expiresAt, now) :: d.id
  }

  predicate InDrops(db: Db, batch: Option<nat>, drops: set<nat>) {
    batch.Some? &&
    var row := FindBatch(db.batches, batch.value);
    row.Some? && row.value.drop.Some? && row.value.drop.value in drops
  }

  function SweepDropFiles(db: Db, now: Time): Db {
    ArchiveFiles(db, now, (f: FileRow) => InDrops(db, f.batch, LapsedDrops(db, now)))
  }

  function SweepDropBatches(db: Db, now: Time): Db {
    ArchiveBatches(db, now, (b: BatchRow) => b.drop.Some? && b.drop.value in LapsedDrops(db, now))
  }

  // ----- deleting, with the cascades of the foreign keys

  function Not(p: FileRow -> bool): FileRow -> bool {
    (f: FileRow) => !p(f)
  }

  function DeleteFiles(db: Db, p: FileRow -> bool): Db {
    db.(files := Keep(db.files, Not(p)))
  }

  function OutsideBatches(dead: set<nat>): FileRow -> bool {
    (f: FileRow) => f.batch.None? || f.batch.value !in dead
  }

  function DeleteBatches(db: Db, dead: set<nat>): Db {
    db.(batches := Keep(db.batches, (b: BatchRow) => b.id !in dead), files := Keep(db.files, OutsideBatches(dead)))
  }

  function BatchesOf(db: Db, drops: set<nat>): set<nat> {
    set b | b in db.batches && b.drop.Some? && b.drop.value in drops :: b.id
  }

  function DeleteDrops(db: Db, dead: set<nat>): Db {
    var db' := DeleteBatches(db, BatchesOf(db, dead));
    db'.(drops := Keep(db.drops, (d: DropRow) => d.id !in dead),
         reservations := Keep(db.reservations, (r: Reservation) => r.drop.None? || r.drop.value !in dead))
  }

  function PurgeFiles(db: Db, now: Time): Db {
    DeleteFiles(db, (f: FileRow) => PastRetention(f.archivedAt, now))
  }

  function PurgeBatches(db: Db, now: Time): Db {
    DeleteBatches(db, set b | b in db.batches && PastRetention(b.archivedAt, now) :: b.id)
  }

  function PurgeDrops(db: Db, now: Time): Db {
    DeleteDrops(db, set d | d in db.drops && PastRetention(d.archivedAt, now) :: d.id)
  }

  /** The owner's delete: the files of the drop first, to learn their blob names, then the row. */
  function DeleteDropFiles(db: Db, drop: nat): Db {
    DeleteFiles(db, (f: FileRow) => InDrop(db.batches, f.batch, drop))
  }

  function SweepReservations(db: Db, now: Time): Db {
    db.(reservations := Keep(db.reservations, (r: Reservation) => Live(r, now)))
  }

  // ----- downloads

  predicate HasSlot(maxDownloads: Option<int>, downloads: nat, expiresAt: Option<Time>, now: Time) {
    !Spent(maxDownloads, downloads) && !Lapsed(expiresAt, now)
  }

  function CountFile(now: Time, id: nat): FileRow -> FileRow {
    (f: FileRow) =>
      if f.id == id && HasSlot(f.maxDownloads, f.downloads, f.expiresAt, now) then f.(downloads := f.downloads + 1) else f
  }

  function CountBatch(now: Time, id: nat): BatchRow -> BatchRow {
    (b: BatchRow) =>
      if b.id == id && HasSlot(b.maxDownloads, b.downloads, b.expiresAt, now) then b.(downloads := b.downloads + 1) else b
  }

  /** One atomic UPDATE: counts the download if a slot is left. */
  function ConsumeFile(db: Db, now: Time, id: nat): Db {
    db.(files := Update(db.files, CountFile(now, id)))
  }

  function ConsumeBatch(db: Db, now: Time, id: nat): Db {
    db.(batches := Update(db.batches, CountBatch(now, id)))
  }

  // ----- creating

  function CreateBatch(db: Db, id: nat, owner: nat, expiresAt: Option<Time>, maxDownloads: Option<int>): Db {
    if FindBatch(db.batches, id).Some? then db
    else db.(batches := db.batches + [BatchRow(id, owner, None, expiresAt, maxDownloads, 0, None)])
  }

  function CreateDrop(db: Db, id: nat, owner: nat, limits: DropLimits, expiresAt: Option<Time>): Db {
    if FindDrop(db.drops, id).Some? then db
    else db.(drops := db.drops + [DropRow(id, owner, limits, expiresAt, None, None)])
  }

  function SetQuota(db: Db, user: nat, q: UserQuota): Db {
    db.(quota := (u: nat) => if u == user then q else db.quota(u))
  }

  // ----- looking rows up in changed tables

  lemma {:induction false} FindBatchKeep(rows: seq<BatchRow>, dead: set<nat>, id: nat)
    ensures FindBatch(Keep(rows, (b: BatchRow) => b.id !in dead), id)
         == if id in dead then None else FindBatch(rows, id)
  {
    if |rows| > 0 {
      FindBatchKeep(rows[1..], dead, id);
      var rest := Keep(rows[1..], (b: BatchRow) => b.id !in dead);
      assert ([rows[0]] + rest)[1..] == rest;
    }
  }

  lemma {:induction false} FindDropKeep(rows: seq<DropRow>, dead: set<nat>, id: nat)
    ensures FindDrop(Keep(rows, (d: DropRow) => d.id !in dead), id)
         == if id in dead then None else FindDrop(rows, id)
  {
    if |rows| > 0 {
      FindDropKeep(rows[1..], dead, id);
      var rest := Keep(rows[1..], (d: DropRow) => d.id !in dead);
      assert ([rows[0]] + rest)[1..] == rest;
    }
  }

  /** Changes of a batch row that keep its id and its drop do not move files between drops. */
  lemma {:induction false} FindBatchUpdate(rows: seq<BatchRow>, g: BatchRow -> BatchRow, id: nat)
    requires forall b :: g(b).id == b.id && g(b).drop == b.drop
    ensures FindBatch(Update(rows, g), id).Some? == FindBatch(rows, id).Some?
    ensures FindBatch(rows, id).Some? ==> FindBatch(Update(rows, g), id).value == g(FindBatch(rows, id).value)
  {
    if |rows| > 0 {
      FindBatchUpdate(rows[1..], g, id);
      assert Update(rows, g)[1..] == Update(rows[1..], g);
    }
  }

  lemma {:induction false} FindDropUpdate(rows: seq<DropRow>, g: DropRow -> DropRow, id: nat)
    requires forall d :: g(d).id == d.id && g(d).limits == d.limits
    ensures FindDrop(Update(rows, g), id).Some? == FindDrop(rows, id).Some?
    ensures FindDrop(rows, id).Some? ==> FindDrop(Update(rows, g), id).value == g(FindDrop(rows, id).value)
  {
    if |rows| > 0 {
      FindDropUpdate(rows[1..], g, id);
      assert Update(rows, g)[1..] == Update(rows[1..], g);
    }
  }

  lemma {:induction false} FindBatchAppend(rows: seq<BatchRow>, b: BatchRow, id: nat)
    ensures FindBatch(rows + [b], id)
         == if FindBatch(rows, id).Some? then FindBatch(rows, id) else if b.id == id then Some(b) else None
  {
    if |rows| == 0 {
      assert rows + [b] == [b];
      assert FindBatch([b][1..], id) == None;
    } else {
      assert (rows + [b])[1..] == rows[1..] + [b];
      FindBatchAppend(rows[1..], b, id);
    }
  }

  lemma {:induction false} FindDropAppend(rows: seq<DropRow>, d: DropRow, id: nat)
    ensures FindDrop(rows + [d], id)
         == if FindDrop(rows, id).Some? then FindDrop(rows, id) else if d.id == id then Some(d) else None
  {
    if |rows| == 0 {
      assert rows + [d] == [d];
      assert FindDrop([d][1..], id) == None;
    } else {
      assert (rows + [d])[1..] == rows[1..] + [d];
      FindDropAppend(rows[1..], d, id);
    }
  }

  lemma {:induction false} FindBatchIn(rows: seq<BatchRow>, id: nat)
    ensures FindBatch(rows, id).Some? ==> FindBatch(rows, id).value in rows && FindBatch(rows, id).value.id == id
    ensures FindBatch(rows, id).None? ==> forall b :: b in rows ==> b.id != id
  {
    if |rows| > 0 {
      FindBatchIn(rows[1..], id);
      assert forall b :: b in rows <==> b == rows[0] || b in rows[1..];
    }
  }
}
