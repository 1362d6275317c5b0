/** What the quota checks count, row by row and in the words of the queries. */
module Accounting {
  import opened Options
  import opened Tables
  import opened Storage
  import opened Transactions
  import opened QuotaSafety

  function Chosen(b: bool, amount: nat): nat {
    if b then amount else 0
  }

  // ----- one row, one reservation

  /** A file that is placed where it was checked counts against every limit exactly what the check allowed for, from
      then until it is archived or its link expires, and nothing afterwards. */
  lemma FileCounts(c: Cap, t: Time, db: Db, target: Option<DropTarget>, row: FileRow)
    requires Placed(db, target, row.batch)
    requires row.batch.Some? ==> FindBatch(db.batches, row.batch.value).Some?
    ensures FileWeight(c, t, db.batches)(row) ==
      if row.archivedAt == None && (row.expiresAt == None || row.expiresAt.value > t)
      then Added(c, row.owner, row.size, target) else 0
  {
  }

  /** A reservation counts what it books for fifteen minutes. */
  lemma ReservationCounts(c: Cap, t: Time, now: Time, user: nat, bytes: nat, target: Option<DropTarget>, id: nat)
    ensures ReservationWeight(c, t)(Reservation(id, user, bytes, OptDrop(target), OptBatch(target), now)) ==
      if t < now + 900 then Added(c, user, bytes, target) else 0
  {
  }

  /** A stored file raises the stored amounts by exactly that, and the reservation is off the books. */
  lemma FinalizeCounts(db: Db, now: Time, reservation: nat, target: Option<DropTarget>, row: FileRow, c: Cap, t: Time)
    requires Placed(db, target, row.batch) && Finalize(db, now, reservation, target, row).Done?
    requires row.archivedAt == None && (row.expiresAt == None || row.expiresAt.value > t)
    ensures var db' := Finalize(db, now, reservation, target, row).db;
      && Stored(db', c, t) == Stored(db, c, t) + Added(c, row.owner, row.size, target)
      && Booked(db, c, t) == Booked(db', c, t)
         + Total(db.reservations, (r: Reservation) => Chosen(r.id == reservation, ReservationWeight(c, t)(r)))
  {
    hide Violation, FileWeight, ReservationWeight, Placed;
    FileCounts(c, t, db, target, row);
    TotalAppend(db.files, row, FileWeight(c, t, db.batches));
    TotalSplit(db.reservations, (r: Reservation) => r.id != reservation, ReservationWeight(c, t),
               (r: Reservation) => Chosen(r.id == reservation, ReservationWeight(c, t)(r)));
  }

  /** A reservation raises the booked amounts by exactly what it books. */
  lemma ReserveCounts(db: Db, now: Time, user: nat, bytes: nat, target: Option<DropTarget>, id: nat, c: Cap, t: Time)
    requires Reserve(db, now, user, bytes, target, id).Done? && t < now + 900
    ensures var db' := Reserve(db, now, user, bytes, target, id).db;
      Stored(db', c, t) == Stored(db, c, t) && Booked(db', c, t) == Booked(db, c, t) + Added(c, user, bytes, target)
  {
    hide Violation, ReservationWeight;
    ReservationCounts(c, t, now, user, bytes, target, id);
    TotalAppend(db.reservations, Reservation(id, user, bytes, OptDrop(target), OptBatch(target), now),
                ReservationWeight(c, t));
  }

  /** Deleting rows takes exactly their weight away. */
  lemma {:induction false} TotalSplit<R>(rows: seq<R>, p: R -> bool, w: R -> nat, gone: R -> nat)
    requires forall x: R :: x in rows ==> gone(x) == if p(x) then 0 else w(x)
    ensures Total(rows, w) == Total(Keep(rows, p), w) + Total(rows, gone)
  {
    if |rows| > 0 {
      TotalSplit(rows[1..], p, w, gone);
      var rest := Keep(rows[1..], p);
      assert ([rows[0]] + rest)[1..] == rest;
    }
  }

  /** Archiving rows takes exactly the weight away that the unarchived ones among them had. */
  lemma ArchivingCounts(db: Db, now: Time, p: FileRow -> bool, c: Cap, t: Time)
    ensures Stored(db, c, t) == Stored(ArchiveFiles(db, now, p), c, t)
      + Total(db.files, (f: FileRow) => Chosen(p(f), FileWeight(c, t, db.batches)(f)))
  {
    ArchivedTotal(db.files, now, p, c, t, db.batches);
  }

  lemma {:induction false} ArchivedTotal(files: seq<FileRow>, now: Time, p: FileRow -> bool, c: Cap, t: Time,
                                         batches: seq<BatchRow>)
    ensures Total(files, FileWeight(c, t, batches)) == Total(Update(files, ArchiveIf(now, p)), FileWeight(c, t, batches))
      + Total(files, (f: FileRow) => Chosen(p(f), FileWeight(c, t, batches)(f)))
  {
    if |files| > 0 {
      ArchivedTotal(files[1..], now, p, c, t, batches);
      assert Update(files, ArchiveIf(now, p))[1..] == Update(files[1..], ArchiveIf(now, p));
      ArchivedRow(files[0], now, p, c, t, batches);
    }
  }

  lemma ArchivedRow(f: FileRow, now: Time, p: FileRow -> bool, c: Cap, t: Time, batches: seq<BatchRow>)
    ensures FileWeight(c, t, batches)(ArchiveIf(now, p)(f)) == if p(f) then 0 else FileWeight(c, t, batches)(f)
  {
  }

  lemma DeletingCounts(db: Db, p: FileRow -> bool, c: Cap, t: Time)
    ensures Stored(db, c, t) == Stored(DeleteFiles(db, p), c, t)
      + Total(db.files, (f: FileRow) => Chosen(p(f), FileWeight(c, t, db.batches)(f)))
  {
    TotalSplit(db.files, Not(p), FileWeight(c, t, db.batches),
               (f: FileRow) => Chosen(p(f), FileWeight(c, t, db.batches)(f)));
  }

  // ----- the queries of the checks

  /** activeFileWhere */
  predicate ActiveRow(f: FileRow, now: Time) {
    f.archivedAt == None && (f.expiresAt == None || f.expiresAt.value > now)
  }

  lemma {:induction false} TotalSame<R>(rows: seq<R>, w: R -> nat, w': R -> nat)
    requires forall x: R :: x in rows ==> w(x) == w'(x)
    ensures Total(rows, w) == Total(rows, w')
  {
    if |rows| > 0 {
      TotalSame(rows[1..], w, w');
    }
  }

  /** SUM(size_bytes) and COUNT(*) over the active files that match. */
  function Bytes(db: Db, now: Time, p: FileRow -> bool): nat {
    Total(db.files, (f: FileRow) => Chosen(ActiveRow(f, now) && p(f), f.size))
  }

  function Count(db: Db, now: Time, p: FileRow -> bool): nat {
    Total(db.files, (f: FileRow) => Chosen(ActiveRow(f, now) && p(f), 1))
  }

  /** SUM(bytes) and COUNT(*) over the reservations of the last fifteen minutes that match. */
  function BytesBooked(db: Db, now: Time, p: Reservation -> bool): nat {
    Total(db.reservations, (r: Reservation) => Chosen(r.createdAt > now - 900 && p(r), r.bytes))
  }

  function CountBooked(db: Db, now: Time, p: Reservation -> bool): nat {
    Total(db.reservations, (r: Reservation) => Chosen(r.createdAt > now - 900 && p(r), 1))
  }

  lemma StoredBytes(db: Db, c: Cap, now: Time, p: FileRow -> bool)
    requires c.Instance? || c.UserBytes? || c.DropBytes?
    requires forall f: FileRow :: p(f) <==> match c
      case UserBytes(u) => f.owner == u
      case DropBytes(d) => InDrop(db.batches, f.batch, d)
      case _ => true
    ensures Stored(db, c, now) == Bytes(db, now, p)
  {
    hide InDrop;
    TotalSame(db.files, FileWeight(c, now, db.batches), (f: FileRow) => Chosen(ActiveRow(f, now) && p(f), f.size));
  }

  lemma StoredFiles(db: Db, c: Cap, now: Time, p: FileRow -> bool)
    requires c.UserFiles? || c.DropFiles? || c.SubmissionFiles?
    requires forall f: FileRow :: p(f) <==> match c
      case UserFiles(u) => f.owner == u
      case DropFiles(d) => InDrop(db.batches, f.batch, d)
      case SubmissionFiles(d, b) => InDrop(db.batches, f.batch, d) && f.batch == Some(b)
      case _ => true
    ensures Stored(db, c, now) == Count(db, now, p)
  {
    hide InDrop;
    TotalSame(db.files, FileWeight(c, now, db.batches), (f: FileRow) => Chosen(ActiveRow(f, now) && p(f), 1));
  }

  lemma BookedAmounts(db: Db, c: Cap, now: Time, p: Reservation -> bool)
    requires !c.Submissions?
    requires forall r: Reservation :: p(r) <==> match c
      case Instance => true
      case UserBytes(u) => r.user == u
      case UserFiles(u) => r.user == u
      case DropBytes(d) => r.drop == Some(d)
      case DropFiles(d) => r.drop == Some(d)
      case SubmissionFiles(d, b) => r.drop == Some(d) && r.batch == Some(b)
      case Submissions(_) => true
    ensures Booked(db, c, now) ==
      if c.Instance? || c.UserBytes? || c.DropBytes? then BytesBooked(db, now, p) else CountBooked(db, now, p)
  {
    if c.Instance? || c.UserBytes? || c.DropBytes? {
      TotalSame(db.reservations, ReservationWeight(c, now), (r: Reservation) => Chosen(r.createdAt > now - 900 && p(r), r.bytes));
    } else {
      TotalSame(db.reservations, ReservationWeight(c, now), (r: Reservation) => Chosen(r.createdAt > now - 900 && p(r), 1));
    }
  }

  /** The instance and the user have room. */
  ghost predicate RoomForUser(db: Db, now: Time, user: nat, bytes: nat) {
    var q := db.quota(user);
    && (db.totalBytes > 0 ==> Bytes(db, now, _ => true) + BytesBooked(db, now, _ => true) + bytes <= db.totalBytes)
    && (q.bytes > 0 ==>
          Bytes(db, now, (f: FileRow) => f.owner == user) + BytesBooked(db, now, (r: Reservation) => r.user == user) + bytes
            <= q.bytes)
    && (q.files > 0 ==>
          Count(db, now, (f: FileRow) => f.owner == user) + CountBooked(db, now, (r: Reservation) => r.user == user) + 1
            <= q.files)
  }

  /** The drop and the submission have room. */
  ghost predicate RoomInDrop(db: Db, now: Time, t: DropTarget, l: DropLimits, bytes: nat) {
    && (l.maxTotalBytes.Some? && l.maxTotalBytes.value > 0 ==>
          Bytes(db, now, (f: FileRow) => InDrop(db.batches, f.batch, t.drop))
            + BytesBooked(db, now, (r: Reservation) => r.drop == Some(t.drop)) + bytes <= l.maxTotalBytes.value)
    && (l.maxFiles.Some? && l.maxFiles.value > 0 ==>
          Count(db, now, (f: FileRow) => InDrop(db.batches, f.batch, t.drop))
            + CountBooked(db, now, (r: Reservation) => r.drop == Some(t.drop)) + 1 <= l.maxFiles.value)
    && (l.maxPerSubmission.Some? && l.maxPerSubmission.value > 0 ==>
          Count(db, now, (f: FileRow) => InDrop(db.batches, f.batch, t.drop) && f.batch == Some(t.batch))
            + CountBooked(db, now, (r: Reservation) => r.drop == Some(t.drop) && r.batch == Some(t.batch)) + 1
            <= l.maxPerSubmission.value)
  }

  lemma UserChecks(db: Db, now: Time, user: nat, bytes: nat)
    ensures QuotaViolation(db.totalBytes, db.quota(user), LoadUsage(db, now, user), bytes).None?
      <==> RoomForUser(db, now, user, bytes)
  {
    hide Stored, Booked, Bytes, Count, BytesBooked, CountBooked;
    StoredBytes(db, Instance, now, _ => true);
    StoredBytes(db, UserBytes(user), now, (f: FileRow) => f.owner == user);
    StoredFiles(db, UserFiles(user), now, (f: FileRow) => f.owner == user);
    BookedAmounts(db, Instance, now, _ => true);
    BookedAmounts(db, UserBytes(user), now, (r: Reservation) => r.user == user);
    BookedAmounts(db, UserFiles(user), now, (r: Reservation) => r.user == user);
  }

  lemma DropChecks(db: Db, now: Time, t: DropTarget, l: DropLimits, bytes: nat)
    ensures DropViolation(l, LoadDropUsage(db, now, t.drop, t.batch), bytes).None? <==> RoomInDrop(db, now, t, l, bytes)
  {
    hide Stored, Booked, Bytes, Count, BytesBooked, CountBooked, InDrop;
    var d, b := t.drop, t.batch;
    StoredBytes(db, DropBytes(d), now, (f: FileRow) => InDrop(db.batches, f.batch, d));
    StoredFiles(db, DropFiles(d), now, (f: FileRow) => InDrop(db.batches, f.batch, d));
    StoredFiles(db, SubmissionFiles(d, b), now, (f: FileRow) => InDrop(db.batches, f.batch, d) && f.batch == Some(b));
    BookedAmounts(db, DropBytes(d), now, (r: Reservation) => r.drop == Some(d));
    BookedAmounts(db, DropFiles(d), now, (r: Reservation) => r.drop == Some(d));
    BookedAmounts(db, SubmissionFiles(d, b), now, (r: Reservation) => r.drop == Some(d) && r.batch == Some(b));
  }

  /** An upload is admitted exactly if what the queries count, with the upload added, stays within every limit. */
  lemma AdmittedIff(db: Db, now: Time, user: nat, bytes: nat, target: Option<DropTarget>)
    ensures Violation(db, now, user, bytes, target).None? <==>
      && RoomForUser(db, now, user, bytes)
      && (target.Some? ==>
            var d := FindDrop(db.drops, target.value.drop);
            d.Some? && RoomInDrop(db, now, target.value, d.value.limits, bytes))
  {
    hide QuotaViolation, DropViolation, LoadUsage, LoadDropUsage, RoomForUser, RoomInDrop, FindDrop;
    UserChecks(db, now, user, bytes);
    if target.Some? && FindDrop(db.drops, target.value.drop).Some? {
      DropChecks(db, now, target.value, FindDrop(db.drops, target.value.drop).value.limits, bytes);
    }
  }

  /** A delivery is opened exactly if the drop has fewer open ones than it accepts and room for a file, under a new
      number. */
  lemma DeliveryIff(db: Db, now: Time, drop: nat, id: nat, expiresAt: Option<Time>)
    ensures OpenSubmission(db, now, drop, id, expiresAt).Done? <==>
      && FindDrop(db.drops, drop).Some? && FindBatch(db.batches, id).None?
      && (var l := FindDrop(db.drops, drop).value.limits;
          && (l.maxSubmissions.Some? && l.maxSubmissions.value > 0 ==>
                Total(db.batches, (b: BatchRow) => Chosen(b.drop == Some(drop) && b.archivedAt == None, 1)) + 1
                  <= l.maxSubmissions.value)
          && (l.maxFiles.Some? && l.maxFiles.value > 0 ==>
                Count(db, now, (f: FileRow) => InDrop(db.batches, f.batch, drop))
                  + CountBooked(db, now, (r: Reservation) => r.drop == Some(drop)) < l.maxFiles.value))
  {
    hide Stored, Booked, Bytes, Count, BytesBooked, CountBooked, InDrop, FindDrop, FindBatch;
    StoredFiles(db, DropFiles(drop), now, (f: FileRow) => InDrop(db.batches, f.batch, drop));
    BookedAmounts(db, DropFiles(drop), now, (r: Reservation) => r.drop == Some(drop));
    TotalSame(db.batches, BatchWeight(Submissions(drop)),
              (b: BatchRow) => Chosen(b.drop == Some(drop) && b.archivedAt == None, 1));
  }
}
