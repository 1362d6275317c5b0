/** Quota accounting: the tables, what counts against which limit, and the checks made under the
    quota lock. Every transaction carries its own timestamp, its start, which may lie in the past. */
module Storage {
  import opened Options
  import opened Tables

  type Time = int

  const RESERVATION_TTL: int := 15 * 60
  const ARCHIVE_RETENTION: int := 30 * 24 * 3600

  datatype FileRow = FileRow(id: nat, owner: nat, size: nat, batch: Option<nat>, expiresAt: Option<Time>,
                             maxDownloads: Option<int>, downloads: nat, archivedAt: Option<Time>)

  datatype Reservation = Reservation(id: nat, user: nat, bytes: nat, drop: Option<nat>, batch: Option<nat>,
                                     createdAt: Time)

  datatype BatchRow = BatchRow(id: nat, owner: nat, drop: Option<nat>, expiresAt: Option<Time>,
                               maxDownloads: Option<int>, downloads: nat, archivedAt: Option<Time>)

  /** None, zero and negative all mean "no limit of this kind". */
  datatype DropLimits = DropLimits(maxFileBytes: Option<int>, maxTotalBytes: Option<int>, maxFiles: Option<int>,
                                   maxPerSubmission: Option<int>, maxSubmissions: Option<int>)

  datatype DropRow = DropRow(id: nat, owner: nat, limits: DropLimits, expiresAt: Option<Time>,
                             closedAt: Option<Time>, archivedAt: Option<Time>)

  datatype UserQuota = UserQuota(bytes: int, files: int)

  datatype Db = Db(files: seq<FileRow>, reservations: seq<Reservation>, batches: seq<BatchRow>, drops: seq<DropRow>,
                   quota: nat -> UserQuota, totalBytes: int)

  /** The drop an upload goes into and the submission within it. */
  datatype DropTarget = DropTarget(drop: nat, batch: nat)

  datatype Refusal =
    | InstanceFull | UserBytesFull | UserFilesFull
    | DropBytesFull | DropFilesFull | SubmissionFull | DeliveriesFull
    | MissingRow

  datatype Outcome = Refused(why: Refusal) | Done(db: Db)

  // ----- what counts

  predicate Active(f: FileRow, now: Time) {
    f.archivedAt.None? && (f.expiresAt.None? || f.expiresAt.value > now)
  }

  predicate Live(r: Reservation, now: Time) {
    r.createdAt > now - RESERVATION_TTL
  }

  function FindBatch(batches: seq<BatchRow>, id: nat): Option<BatchRow> {
    if |batches| == 0 then None
    else if batches[0].id == id then Some(batches[0])
    else FindBatch(batches[1..], id)
  }

  function FindDrop(drops: seq<DropRow>, id: nat): Option<DropRow> {
    if |drops| == 0 then None
    else if drops[0].id == id then Some(drops[0])
    else FindDrop(drops[1..], id)
  }

  predicate InDrop(batches: seq<BatchRow>, batch: Option<nat>, drop: nat) {
    batch.Some? &&
    var row := FindBatch(batches, batch.value);
    row.Some? && row.value.drop == Some(drop)
  }

  /** The limits the system promises to keep. */
  datatype Cap =
    | Instance | UserBytes(user: nat) | UserFiles(user: nat)
    | DropBytes(drop: nat) | DropFiles(drop: nat) | SubmissionFiles(drop: nat, batch: nat)
    | Submissions(drop: nat)

  function FileWeight(c: Cap, now: Time, batches: seq<BatchRow>): FileRow -> nat {
    (f: FileRow) =>
      if !Active(f, now) then 0
      else match c
        case Instance => f.size
        case UserBytes(u) => if f.owner == u then f.size else 0
        case UserFiles(u) => if f.owner == u then 1 else 0
        case DropBytes(d) => if InDrop(batches, f.batch, d) then f.size else 0
        case DropFiles(d) => if InDrop(batches, f.batch, d) then 1 else 0
        case SubmissionFiles(d, b) => if InDrop(batches, f.batch, d) && f.batch == Some(b) then 1 else 0
        case Submissions(d) => 0
  }

  function ReservationWeight(c: Cap, now: Time): Reservation -> nat {
    (r: Reservation) =>
      if !Live(r, now) then 0
      else match c
        case Instance => r.bytes
        case UserBytes(u) => if r.user == u then r.bytes else 0
        case UserFiles(u) => if r.user == u then 1 else 0
        case DropBytes(d) => if r.drop == Some(d) then r.bytes else 0
        case DropFiles(d) => if r.drop == Some(d) then 1 else 0
        case SubmissionFiles(d, b) => if r.drop == Some(d) && r.batch == Some(b) then 1 else 0
        case Submissions(d) => 0
  }

  function BatchWeight(c: Cap): BatchRow -> nat {
    (b: BatchRow) =>
      match c
        case Submissions(d) => if b.drop == Some(d) && b.archivedAt.None? then 1 else 0
        case _ => 0
  }

  function Stored(db: Db, c: Cap, now: Time): nat {
    Total(db.files, FileWeight(c, now, db.batches))
  }

  function Booked(db: Db, c: Cap, now: Time): nat {
    Total(db.reservations, ReservationWeight(c, now))
  }

  /** Stored and booked together, and open submissions. */
  function Usage(db: Db, c: Cap, now: Time): nat {
    Stored(db, c, now) + Booked(db, c, now) + Total(db.batches, BatchWeight(c))
  }

  function Positive(limit: Option<int>): int {
    if limit.Some? && limit.value > 0 then limit.value else 0
  }

  /** The value of a limit, 0 when there is none. */
  function Limit(db: Db, c: Cap): int {
    match c
    case Instance => db.totalBytes
    case UserBytes(u) => db.quota(u).bytes
    case UserFiles(u) => db.quota(u).files
    case DropBytes(d) => var r := FindDrop(db.drops, d); if r.Some? then Positive(r.value.limits.maxTotalBytes) else 0
    case DropFiles(d) => var r := FindDrop(db.drops, d); if r.Some? then Positive(r.value.limits.maxFiles) else 0
    case SubmissionFiles(d, _) =>
      var r := FindDrop(db.drops, d); if r.Some? then Positive(r.value.limits.maxPerSubmission) else 0
    case Submissions(d) => var r := FindDrop(db.drops, d); if r.Some? then Positive(r.value.limits.maxSubmissions) else 0
  }

  ghost predicate Respects(db: Db, c: Cap, now: Time) {
    Limit(db, c) > 0 ==> Usage(db, c, now) <= Limit(db, c)
  }

  // ----- the checks of the upload path

  datatype UsageSnapshot = UsageSnapshot(userBytes: nat, userFiles: nat, totalBytes: nat,
                                         userReserved: nat, userResCount: nat, totalReserved: nat)

  function LoadUsage(db: Db, now: Time, user: nat): UsageSnapshot {
    UsageSnapshot(Stored(db, UserBytes(user), now), Stored(db, UserFiles(user), now), Stored(db, Instance, now),
                  Booked(db, UserBytes(user), now), Booked(db, UserFiles(user), now), Booked(db, Instance, now))
  }

  function QuotaViolation(totalBytes: int, q: UserQuota, u: UsageSnapshot, incoming: nat): Option<Refusal> {
    if totalBytes > 0 && u.totalBytes + u.totalReserved + incoming > totalBytes then Some(InstanceFull)
    else if q.bytes > 0 && u.userBytes + u.userReserved + incoming > q.bytes then Some(UserBytesFull)
    else if q.files > 0 && u.userFiles + u.userResCount + 1 > q.files then Some(UserFilesFull)
    else None
  }

  datatype DropUsage = DropUsage(bytes: nat, files: nat, submissions: nat, subFiles: nat)

  function LoadDropUsage(db: Db, now: Time, drop: nat, batch: nat): DropUsage {
    DropUsage(Stored(db, DropBytes(drop), now) + Booked(db, DropBytes(drop), now),
              Stored(db, DropFiles(drop), now) + Booked(db, DropFiles(drop), now),
              Total(db.batches, BatchWeight(Submissions(drop))),
              Stored(db, SubmissionFiles(drop, batch), now) + Booked(db, SubmissionFiles(drop, batch), now))
  }

  function DropViolation(l: DropLimits, u: DropUsage, incoming: nat): Option<Refusal> {
    if l.maxTotalBytes.Some? && l.maxTotalBytes.value > 0 && u.bytes + incoming > l.maxTotalBytes.value then Some(DropBytesFull)
    else if l.maxFiles.Some? && l.maxFiles.value > 0 && u.files + 1 > l.maxFiles.value then Some(DropFilesFull)
    else if l.maxPerSubmission.Some? && l.maxPerSubmission.value > 0 && u.subFiles + 1 > l.maxPerSubmission.value
    then Some(SubmissionFull)
    else None
  }

  function DropAcceptsAnotherSubmission(l: DropLimits, u: DropUsage): Option<Refusal> {
    if l.maxSubmissions.Some? && l.maxSubmissions.value > 0 && u.submissions + 1 > l.maxSubmissions.value
    then Some(DeliveriesFull)
    else if l.maxFiles.Some? && l.maxFiles.value > 0 && u.files >= l.maxFiles.value then Some(DropFilesFull)
    else None
  }

  /** The first refusal an upload of this size would meet, or none. */
  function Violation(db: Db, now: Time, user: nat, incoming: nat, target: Option<DropTarget>): Option<Refusal> {
    var v := QuotaViolation(db.totalBytes, db.quota(user), LoadUsage(db, now, user), incoming);
    if v.Some? || target.None? then v
    else
      var d := FindDrop(db.drops, target.value.drop);
      if d.None? then Some(MissingRow)
      else DropViolation(d.value.limits, LoadDropUsage(db, now, target.value.drop, target.value.batch), incoming)
  }

  // ----- how much is booked

  function Ceiling(maxUpload: int, limits: Option<DropLimits>): int {
    if limits.Some? && limits.value.maxFileBytes.Some? && 0 < limits.value.maxFileBytes.value < maxUpload
    then limits.value.maxFileBytes.value else maxUpload
  }

  /** The request's declared length, or the ceiling when it is unknown or above it. */
  function BookedBytes(contentLength: int, ceiling: int): int {
    if contentLength <= 0 || contentLength > ceiling then ceiling else contentLength
  }

  /** What is booked: the declared length if it is positive and fits both ceilings, and the lower ceiling otherwise. */
  lemma BookedExactly(contentLength: int, maxUpload: nat, limits: Option<DropLimits>)
    ensures var b := BookedBytes(contentLength, Ceiling(maxUpload, limits));
      var own := limits.Some? && limits.value.maxFileBytes.Some? && limits.value.maxFileBytes.value > 0;
      && 0 <= b <= maxUpload && (own ==> b <= limits.value.maxFileBytes.value)
      && (0 < contentLength <= maxUpload && (own ==> contentLength <= limits.value.maxFileBytes.value) ==> b == contentLength)
      && (b == contentLength || b == maxUpload || (own && b == limits.value.maxFileBytes.value))
      && (contentLength <= 0 ==> b == maxUpload || (own && b == limits.value.maxFileBytes.value))
  {
  }

  // ----- transactions under the quota lock

  function OptDrop(t: Option<DropTarget>): Option<nat> { if t.Some? then Some(t.value.drop) else None }
  function OptBatch(t: Option<DropTarget>): Option<nat> { if t.Some? then Some(t.value.batch) else None }

  function Reserve(db: Db, now: Time, user: nat, bytes: nat, target: Option<DropTarget>, id: nat): Outcome {
    var v := Violation(db, now, user, bytes, target);
    if v.Some? then Refused(v.value)
    else Done(db.(reservations := db.reservations + [Reservation(id, user, bytes, OptDrop(target), OptBatch(target), now)]))
  }

  function Release(db: Db, id: nat): Db {
    db.(reservations := Keep(db.reservations, (r: Reservation) => r.id != id))
  }

  /** The new row is checked against the tables without the reservation it replaces. */
  function Finalize(db: Db, now: Time, reservation: nat, target: Option<DropTarget>, row: FileRow): Outcome {
    var rest := Release(db, reservation);
    var v := Violation(rest, now, row.owner, row.size, target);
    if v.Some? then Refused(v.value)
    else if row.batch.Some? && FindBatch(rest.batches, row.batch.value).None? then Refused(MissingRow)
    else Done(rest.(files := rest.files + [row]))
  }

  function OpenSubmission(db: Db, now: Time, drop: nat, id: nat, expiresAt: Option<Time>): Outcome {
    var d := FindDrop(db.drops, drop);
    if d.None? then Refused(MissingRow)
    else
      var v := DropAcceptsAnotherSubmission(d.value.limits, LoadDropUsage(db, now, drop, 0));
      if v.Some? then Refused(v.value)
      else if FindBatch(db.batches, id).Some? then Refused(MissingRow)
      else Done(db.(batches := db.batches + [BatchRow(id, d.value.owner, Some(drop), expiresAt, None, 0, None)]))
  }

  // ----- the checks in terms of the limits

  ghost predicate Fits(db: Db, c: Cap, now: Time, incoming: nat) {
    Limit(db, c) > 0 ==> Usage(db, c, now) + incoming <= Limit(db, c)
  }

  /** What one more file of this size adds to a limit's usage. */
  function Added(c: Cap, user: nat, bytes: nat, target: Option<DropTarget>): nat {
    match c
    case Instance => bytes
    case UserBytes(u) => if u == user then bytes else 0
    case UserFiles(u) => if u == user then 1 else 0
    case DropBytes(d) => if OptDrop(target) == Some(d) then bytes else 0
    case DropFiles(d) => if OptDrop(target) == Some(d) then 1 else 0
    case SubmissionFiles(d, b) => if target == Some(DropTarget(d, b)) then 1 else 0
    case Submissions(d) => 0
  }

  lemma {:induction false} NoBatchWeight(rows: seq<BatchRow>, c: Cap)
    requires !c.Submissions?
    ensures Total(rows, BatchWeight(c)) == 0
  {
    if |rows| > 0 {
      NoBatchWeight(rows[1..], c);
    }
  }

  /** The chain of checks refuses an upload exactly when it would overrun one of the limits it counts
      against, or its drop is gone. */
  lemma ViolationIffOverrun(db: Db, now: Time, user: nat, bytes: nat, target: Option<DropTarget>)
    ensures Violation(db, now, user, bytes, target).None? <==>
      && (target.Some? ==> FindDrop(db.drops, target.value.drop).Some?)
      && Fits(db, Instance, now, bytes) && Fits(db, UserBytes(user), now, bytes) && Fits(db, UserFiles(user), now, 1)
      && (target.Some? ==>
            && Fits(db, DropBytes(target.value.drop), now, bytes)
            && Fits(db, DropFiles(target.value.drop), now, 1)
            && Fits(db, SubmissionFiles(target.value.drop, target.value.batch), now, 1))
  {
    hide Stored, Booked, BatchWeight, FindDrop;
    NoBatchWeight(db.batches, Instance);
    NoBatchWeight(db.batches, UserBytes(user));
    NoBatchWeight(db.batches, UserFiles(user));
    if target.Some? {
      var t := target.value;
      NoBatchWeight(db.batches, DropBytes(t.drop));
      NoBatchWeight(db.batches, DropFiles(t.drop));
      NoBatchWeight(db.batches, SubmissionFiles(t.drop, t.batch));
    }
  }
}
