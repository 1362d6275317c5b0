/** The server's transactions and disk work in the order the code does them. */
module Server {
  import opened Options
  import opened Tables
  import opened Storage
  import opened Transactions
  import opened Lifecycle

  function Names(files: seq<FileRow>, p: FileRow -> bool): set<nat> {
    set f | f in files && p(f) :: f.id
  }

  lemma NamesAppend(files: seq<FileRow>, x: FileRow, p: FileRow -> bool)
    ensures Names(files + [x], p) == Names(files, p) + (if p(x) then {x.id} else {})
  {
    var l, r := Names(files + [x], p), Names(files, p) + (if p(x) then {x.id} else {});
    forall id | id in r ensures id in l {
      if id in Names(files, p) {
        var f :| f in files && p(f) && f.id == id;
        assert f in files + [x];
      } else {
        assert x in files + [x];
      }
    }
  }

  /** After a sweep nothing that can be served is expired or used up, nothing past retention is left, and every row
      that was neither is as it was. */
  lemma SweepIsComplete(db: Db, now: Time, later: Time, f: FileRow)
    ensures f in PurgeFiles(SweepFiles(db, now), later).files ==> !DeadFile(f, now) && !PastRetention(f.archivedAt, later)
    ensures f in db.files && !DeadFile(f, now) && !PastRetention(f.archivedAt, later) ==>
      f in PurgeFiles(SweepFiles(db, now), later).files
  {
    var dead, recent := (g: FileRow) => DeadFile(g, now), Not((g: FileRow) => PastRetention(g.archivedAt, later));
    var swept := SweepFiles(db, now);
    KeepIn(swept.files, recent, f);
    UpdateIn(db.files, ArchiveIf(now, dead), f);
    ArchiveIfKeeps(now, dead);
    assert swept.files == Update(db.files, ArchiveIf(now, dead));
  }

  /** What the two statements of a sweep leave, in their own words: every unarchived row whose link has expired or whose
      downloads are used up is archived now, and rows archived thirty days ago or longer are gone. */
  lemma SweptRows(db: Db, now: Time, later: Time, f: FileRow)
    ensures f in PurgeFiles(SweepFiles(db, now), later).files <==>
      && (exists g :: g in db.files &&
            f == if g.archivedAt == None && ((g.expiresAt.Some? && g.expiresAt.value <= now)
                                          || (g.maxDownloads.Some? && g.downloads >= g.maxDownloads.value))
                 then g.(archivedAt := Some(now)) else g)
      && !(f.archivedAt.Some? && f.archivedAt.value <= later - 30 * 24 * 3600)
  {
    var dead, recent := (g: FileRow) => DeadFile(g, now), Not((g: FileRow) => PastRetention(g.archivedAt, later));
    var swept := SweepFiles(db, now);
    KeepIn(swept.files, recent, f);
    UpdateIn(db.files, ArchiveIf(now, dead), f);
    assert swept.files == Update(db.files, ArchiveIf(now, dead));
    forall g: FileRow {
      ArchivedNow(g, now);
    }
  }

  lemma ArchivedNow(g: FileRow, now: Time)
    ensures ArchiveIf(now, (x: FileRow) => DeadFile(x, now))(g) ==
      if g.archivedAt == None && ((g.expiresAt.Some? && g.expiresAt.value <= now)
                               || (g.maxDownloads.Some? && g.downloads >= g.maxDownloads.value))
      then g.(archivedAt := Some(now)) else g
  {
    var dead := (x: FileRow) => DeadFile(x, now);
    assert ArchiveIf(now, dead)(g) == if dead(g) then Archived(g, now) else g;
  }

  /** The same for batch links. */
  lemma SweptBatches(db: Db, now: Time, b: BatchRow)
    ensures b in SweepBatches(db, now).batches <==>
      exists g :: g in db.batches &&
        b == if g.archivedAt == None && ((g.expiresAt.Some? && g.expiresAt.value <= now)
                                      || (g.maxDownloads.Some? && g.downloads >= g.maxDownloads.value))
             then g.(archivedAt := Some(now)) else g
  {
    var dead := (g: BatchRow) => DeadBatch(g, now);
    UpdateIn(db.batches, ArchiveBatchIf(now, dead), b);
    forall g: BatchRow {
      ArchivedBatchNow(g, now);
    }
  }

  lemma ArchivedBatchNow(g: BatchRow, now: Time)
    ensures ArchiveBatchIf(now, (x: BatchRow) => DeadBatch(x, now))(g) ==
      if g.archivedAt == None && ((g.expiresAt.Some? && g.expiresAt.value <= now)
                               || (g.maxDownloads.Some? && g.downloads >= g.maxDownloads.value))
      then g.(archivedAt := Some(now)) else g
  {
  }

  /** The files an expired drop takes with it: those in a delivery whose drop is past its expiry. */
  lemma SweptDropFiles(db: Db, now: Time, f: FileRow)
    ensures f in SweepDropFiles(db, now).files <==>
      exists g :: g in db.files &&
        f == if g.archivedAt == None && g.batch.Some? && FindBatch(db.batches, g.batch.value).Some?
                && (exists d :: d in db.drops && FindBatch(db.batches, g.batch.value).value.drop == Some(d.id)
                                && d.expiresAt.Some? && d.expiresAt.value <= now)
             then g.(archivedAt := Some(now)) else g
  {
    hide FindBatch;
    var dead := (g: FileRow) => InDrops(db, g.batch, LapsedDrops(db, now));
    UpdateIn(db.files, ArchiveIf(now, dead), f);
    forall g: FileRow ensures ArchiveIf(now, dead)(g) == if dead(g) then Archived(g, now) else g {
    }
  }

  /** The link `id` in row i has one download more, within its limit; nothing else differs. */
  ghost predicate Burned(before: seq<FileRow>, after: seq<FileRow>, i: nat, id: nat)
    requires i < |before|
  {
    var f := before[i];
    && f.id == id && (f.maxDownloads.Some? ==> f.downloads + 1 <= f.maxDownloads.value)
    && after == before[i := f.(downloads := f.downloads + 1)]
  }

  lemma {:induction false} UniqueAt(files: seq<FileRow>, i: nat, j: nat)
    requires Unique(files) && i < j < |files|
    ensures files[i].id != files[j].id
  {
    if i > 0 {
      UniqueAt(files[1..], i - 1, j - 1);
    } else {
      assert files[j] in files[1..];
    }
  }

  /** Where ids are distinct, counting a download changes only the row that has a free slot. */
  lemma BurnsOne(files: seq<FileRow>, now: Time, id: nat, i: nat)
    requires Unique(files) && i < |files| && files[i].id == id
    requires HasSlot(files[i].maxDownloads, files[i].downloads, files[i].expiresAt, now)
    ensures Burned(files, Update(files, CountFile(now, id)), i, id)
  {
    var after := Update(files, CountFile(now, id));
    CountedRow(files[i], now, id);
    forall j: nat | j < |files| && j != i ensures after[j] == files[j] {
      hide Unique, HasSlot;
      if i < j {
        UniqueAt(files, i, j);
      } else {
        UniqueAt(files, j, i);
      }
    }
  }

  lemma CountedRow(f: FileRow, now: Time, id: nat)
    requires f.id == id && HasSlot(f.maxDownloads, f.downloads, f.expiresAt, now)
    ensures CountFile(now, id)(f) == f.(downloads := f.downloads + 1)
    ensures f.maxDownloads.Some? ==> f.downloads + 1 <= f.maxDownloads.value
  {
  }

  /** A slot is free while the count is below the limit, if there is one, before the link expires, if it does. */
  lemma SlotIff()
    ensures forall m: Option<int>, d: nat, e: Option<Time>, t: Time ::
      HasSlot(m, d, e, t) <==> (m == None || d < m.value) && (e == None || e.value > t)
  {
  }

  lemma BurnsNone(files: seq<FileRow>, now: Time, id: nat)
    requires forall f :: f in files && f.id == id ==> !HasSlot(f.maxDownloads, f.downloads, f.expiresAt, now)
    ensures Update(files, CountFile(now, id)) == files
  {
    hide HasSlot;
    forall j: nat | j < |files| ensures Update(files, CountFile(now, id))[j] == files[j] {
      assert files[j] in files;
    }
  }

  lemma Freed(db: Db, reservation: nat)
    ensures forall r :: r in Release(db, reservation).reservations <==> r in db.reservations && r.id != reservation
  {
    forall r ensures r in Release(db, reservation).reservations <==> r in db.reservations && r.id != reservation {
      KeepIn(db.reservations, (r: Reservation) => r.id != reservation, r);
    }
  }

  lemma ReleaseOnly(db: Db, reservation: nat)
    ensures Release(db, reservation).files == db.files
  {
    hide Keep;
  }

  lemma FinalizeReleases(db: Db, now: Time, reservation: nat, target: Option<DropTarget>, row: FileRow)
    requires Finalize(db, now, reservation, target, row).Done?
    ensures Finalize(db, now, reservation, target, row).db.reservations == Release(db, reservation).reservations
  {
    hide Violation, Keep;
  }

  lemma ReserveAppends(db: Db, now: Time, user: nat, bytes: nat, target: Option<DropTarget>, id: nat)
    requires Reserve(db, now, user, bytes, target, id).Done?
    ensures var r := Reserve(db, now, user, bytes, target, id).db;
      r.files == db.files && (exists x: Reservation :: x.id == id && r.reservations == db.reservations + [x])
  {
    hide Violation;
    var r := Reserve(db, now, user, bytes, target, id).db;
    var x := r.reservations[|db.reservations|];
    assert x.id == id && r.reservations == db.reservations + [x];
  }

  class App {
    var files: seq<FileRow>
    var reservations: seq<Reservation>
    var batches: seq<BatchRow>
    var drops: seq<DropRow>
    var quota: nat -> UserQuota
    const totalBytes: int
    var blobs: set<nat>

    ghost function State(): Db
      reads this
    {
      Db(files, reservations, batches, drops, quota, totalBytes)
    }

    constructor (quota: nat -> UserQuota, totalBytes: int)
      ensures State() == Db([], [], [], [], quota, totalBytes) && blobs == {}
    {
      files, reservations, batches, drops := [], [], [], [];
      this.quota := quota;
      this.totalBytes := totalBytes;
      blobs := {};
    }

    /** The quota check, then the drop's; none means the upload may go on. */
    method CheckUpload(now: Time, user: nat, bytes: nat, target: Option<DropTarget>) returns (v: Option<Refusal>)
      ensures v == Violation(State(), now, user, bytes, target)
    {
      var db := Db(files, reservations, batches, drops, quota, totalBytes);
      var u := LoadUsage(db, now, user);
      v := QuotaViolation(totalBytes, quota(user), u, bytes);
      if v.Some? {
        return;
      }
      if target.Some? {
        var d := FindDrop(drops, target.value.drop);
        if d.None? {
          return Some(MissingRow);
        }
        var du := LoadDropUsage(db, now, target.value.drop, target.value.batch);
        v := DropViolation(d.value.limits, du, bytes);
      }
    }

    method ReserveUpload(now: Time, user: nat, maxUpload: nat, contentLength: int, target: Option<DropTarget>,
                         limits: Option<DropLimits>, id: nat) returns (v: Option<Refusal>)
      modifies this`reservations
      ensures match Reserve(old(State()), now, user, BookedBytes(contentLength, Ceiling(maxUpload, limits)), target, id)
        case Refused(why) => v == Some(why) && State() == old(State())
        case Done(db) => v == None && State() == db
    {
      var ceiling := Ceiling(maxUpload, limits);
      var bytes := contentLength;
      if bytes <= 0 || bytes > ceiling {
        bytes := ceiling;
      }
      v := CheckUpload(now, user, bytes, target);
      if v.Some? {
        return;
      }
      reservations := reservations + [Reservation(id, user, bytes, OptDrop(target), OptBatch(target), now)];
    }

    /** Gives the reservation back first, so that the checks see only what is stored and every other upload. */
    method FinalizeUpload(now: Time, reservation: nat, target: Option<DropTarget>, row: FileRow) returns (v: Option<Refusal>)
      modifies this`reservations, this`files
      ensures match Finalize(old(State()), now, reservation, target, row)
        case Refused(why) => v == Some(why) && State() == old(State())
        case Done(db) => v == None && State() == db
    {
      var saved := reservations;
      reservations := Keep(reservations, (r: Reservation) => r.id != reservation);
      v := CheckUpload(now, row.owner, row.size, target);
      if v.None? && row.batch.Some? && FindBatch(batches, row.batch.value).None? {
        v := Some(MissingRow);
      }
      if v.Some? {
        reservations := saved;
        return;
      }
      files := files + [row];
    }

    /** Afterwards no reservation has the number, and every other one is there as often as before. */
    method ReleaseReservation(id: nat)
      modifies this`reservations
      ensures State() == Release(old(State()), id)
      ensures forall r :: multiset(reservations)[r] == if r.id == id then 0 else multiset(old(reservations))[r]
    {
      ghost var before := reservations;
      reservations := Keep(reservations, (r: Reservation) => r.id != id);
      forall r ensures multiset(reservations)[r] == if r.id == id then 0 else multiset(before)[r] {
        KeepCount(before, (s: Reservation) => s.id != id, r);
      }
    }

    /** Reserve, write the blob, then the row; a blob whose row the handler was not told of is removed again, also
        when the row's commit took effect and only its acknowledgement was lost. */
    method StoreUpload(t0: Time, t1: Time, user: nat, maxUpload: nat, contentLength: int, target: Option<DropTarget>,
                       limits: Option<DropLimits>, reservation: nat, row: FileRow, copied: bool, acknowledged: bool)
      returns (ok: bool)
      requires row.owner == user && row.id !in blobs
      modifies this`reservations, this`files, this`blobs
      ensures ok ==> blobs == old(blobs) + {row.id} && files == old(files) + [row]
      ensures !ok ==> blobs == old(blobs) && files <= old(files) + [row]
      ensures !ok && (acknowledged || !copied) ==> files == old(files)
      ensures match Reserve(old(State()), t0, user, BookedBytes(contentLength, Ceiling(maxUpload, limits)), target, reservation)
        case Refused(_) => !ok && State() == old(State())
        case Done(booked) =>
          && ok == (copied && acknowledged && Finalize(booked, t1, reservation, target, row).Done?)
          && forall r :: r in reservations <==> r in old(reservations) && r.id != reservation
    {
      hide Reserve, Finalize, Release, Keep;
      ghost var before := State();
      var v := ReserveUpload(t0, user, maxUpload, contentLength, target, limits, reservation);
      if v.Some? {
        return false;
      }
      ghost var booked := State();
      ReserveAppends(before, t0, user, BookedBytes(contentLength, Ceiling(maxUpload, limits)), target, reservation);
      Freed(booked, reservation);
      blobs := blobs + {row.id};
      if copied {
        v := FinalizeUpload(t1, reservation, target, row);
        if v.None? {
          FinalizeAppends(booked, t1, reservation, target, row);
          FinalizeReleases(booked, t1, reservation, target, row);
        }
        if v.None? && acknowledged {
          return true;
        }
      }
      blobs := blobs - {row.id};
      Freed(State(), reservation);
      ghost var last := State();
      ReleaseReservation(reservation);
      ReleaseOnly(last, reservation);
      ok := false;
    }

    /** Removes the named blobs one by one; a missing one is not an error. */
    method RemoveBlobs(stored: seq<nat>)
      modifies this`blobs
      ensures blobs == old(blobs) - (set id | id in stored)
    {
      for i := 0 to |stored|
        invariant blobs == old(blobs) - (set id | id in stored[..i])
      {
        blobs := blobs - {stored[i]};
        assert stored[..i + 1] == stored[..i] + [stored[i]];
      }
      assert stored[..|stored|] == stored;
    }

    /** The names that an UPDATE or DELETE returns, in row order. */
    method CollectStored(p: FileRow -> bool) returns (stored: seq<nat>)
      ensures (set id | id in stored) == Names(files, p)
    {
      stored := [];
      for i := 0 to |files|
        invariant (set id | id in stored) == Names(files[..i], p)
      {
        assert files[..i + 1] == files[..i] + [files[i]];
        NamesAppend(files[..i], files[i], p);
        if p(files[i]) {
          stored := stored + [files[i].id];
        }
      }
      assert files[..|files|] == files;
    }

    /** Stage 1 archives dead links and drops their blobs, stage 2 purges rows past retention. */
    method SweepExpiredFiles(now: Time, later: Time)
      modifies this`files, this`blobs
      ensures State() == PurgeFiles(SweepFiles(old(State()), now), later)
      ensures blobs == old(blobs) - Returned(old(State()), now, ExpiredFiles)
                     - Names(SweepFiles(old(State()), now).files, (f: FileRow) => PastRetention(f.archivedAt, later))
    {
      ghost var db := State();
      var archived := CollectStored((f: FileRow) => DeadFile(f, now));
      files := Update(files, ArchiveIf(now, (f: FileRow) => DeadFile(f, now)));
      assert Names(db.files, (f: FileRow) => DeadFile(f, now)) == Returned(db, now, ExpiredFiles);
      RemoveBlobs(archived);
      assert State() == SweepFiles(db, now);
      var purged := CollectStored((f: FileRow) => PastRetention(f.archivedAt, later));
      files := Keep(files, Not((f: FileRow) => PastRetention(f.archivedAt, later)));
      RemoveBlobs(purged);
    }

    /** Burns one slot in a single statement, or finds the link used up. */
    method ConsumeDownload(now: Time, id: nat) returns (ok: bool)
      modifies this`files
      ensures ok <==> exists f ::
        && f in old(files) && f.id == id
        && (f.maxDownloads == None || f.downloads < f.maxDownloads.value)
        && (f.expiresAt == None || f.expiresAt.value > now)
      ensures ok == Counts(old(State()), id, now)
      ensures State() == ConsumeFile(old(State()), now, id)
      ensures !ok ==> files == old(files)
      ensures ok && Unique(old(files)) ==> exists i: nat :: i < |old(files)| && Burned(old(files), files, i, id)
    {
      hide HasSlot, Unique, Burned;
      SlotIff();
      ghost var before := files;
      ok := exists f :: f in files && f.id == id && HasSlot(f.maxDownloads, f.downloads, f.expiresAt, now);
      files := Update(files, CountFile(now, id));
      if !ok {
        BurnsNone(before, now, id);
      } else if Unique(before) {
        var f :| f in before && f.id == id && HasSlot(f.maxDownloads, f.downloads, f.expiresAt, now);
        var i: nat :| i < |before| && before[i] == f;
        BurnsOne(before, now, id, i);
      }
    }

    /** The same for a batch link, whose slots are burned by its member files. */
    method ConsumeBatchDownload(now: Time, id: nat) returns (ok: bool)
      modifies this`batches
      ensures ok <==> exists b ::
        && b in old(batches) && b.id == id
        && (b.maxDownloads == None || b.downloads < b.maxDownloads.value)
        && (b.expiresAt == None || b.expiresAt.value > now)
      ensures State() == ConsumeBatch(old(State()), now, id)
      ensures |batches| == |old(batches)| && forall i :: 0 <= i < |batches| ==>
        batches[i] == (
          var b := old(batches)[i];
          if b.id == id && (b.maxDownloads == None || b.downloads < b.maxDownloads.value)
             && (b.expiresAt == None || b.expiresAt.value > now)
          then b.(downloads := b.downloads + 1) else b)
    {
      hide HasSlot;
      SlotIff();
      ok := exists b :: b in batches && b.id == id && HasSlot(b.maxDownloads, b.downloads, b.expiresAt, now);
      batches := Update(batches, CountBatch(now, id));
    }
  }
}
