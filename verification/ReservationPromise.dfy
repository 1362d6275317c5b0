/** A live reservation is a promise, kept exactly when transactions are checked in lock order. */
module ReservationPromise {
  import opened Options
  import opened Tables
  import opened Storage
  import opened QuotaSafety
  import Container

  /** A live reservation made for this upload, large enough for what was written, with the rows the
      upload refers to still there. */
  ghost predicate Covered(db: Db, now: Time, r: Reservation, target: Option<DropTarget>, row: FileRow) {
    && r in db.reservations && Live(r, now)
    && r.user == row.owner && r.drop == OptDrop(target) && r.batch == OptBatch(target)
    && row.size <= r.bytes
    && (row.batch.Some? ==> FindBatch(db.batches, row.batch.value).Some?)
  }

  /** The re-checks of the final transaction pass: what the reservation held is given back first. */
  lemma LiveReservationIsKept(s: Sys, now: Time, r: Reservation, target: Option<DropTarget>, row: FileRow)
    requires Safe(s) && s.high <= now && Covered(s.db, now, r, target, row)
    ensures Finalize(s.db, now, r.id, target, row).Done?
  {
    var keep := (x: Reservation) => x.id != r.id;
    var rest := Release(s.db, r.id);
    forall c: Cap ensures Limit(rest, c) > 0 ==> Usage(rest, c, now) + Added(c, row.owner, row.size, target) <= Limit(rest, c) {
      assert Respects(s.db, c, now);
      assert Limit(rest, c) == Limit(s.db, c);
      TotalDrop(s.db.reservations, keep, ReservationWeight(c, now), r);
      assert Added(c, row.owner, row.size, target) <= ReservationWeight(c, now)(r);
    }
    ViolationIffOverrun(rest, now, row.owner, row.size, target);
    assert Fits(rest, Instance, now, row.size);
    assert Fits(rest, UserBytes(row.owner), now, row.size);
    assert Fits(rest, UserFiles(row.owner), now, 1);
    if target.Some? {
      var t := target.value;
      assert Fits(rest, DropBytes(t.drop), now, row.size);
      assert Fits(rest, DropFiles(t.drop), now, 1);
      assert Fits(rest, SubmissionFiles(t.drop, t.batch), now, 1);
    }
  }

  /** The booking always covers the file: its container, never shorter than the plaintext, arrived inside a body of
      the declared length, or the ceiling that also bounds the plaintext was booked. So an upload with a live
      reservation is not refused at the end. */
  lemma BookedUploadIsKept(s: Sys, now: Time, r: Reservation, target: Option<DropTarget>, row: FileRow,
      contentLength: int, ceiling: int, manifestLen: nat)
    requires Safe(s) && s.high <= now && r in s.db.reservations && Live(r, now)
    requires r.user == row.owner && r.drop == OptDrop(target) && r.batch == OptBatch(target)
    requires row.batch.Some? ==> FindBatch(s.db.batches, row.batch.value).Some?
    requires r.bytes == BookedBytes(contentLength, ceiling) && row.size <= ceiling
    requires contentLength > 0 ==> Container.CipherLen(row.size, manifestLen, Container.VERSION) <= contentLength
    ensures Finalize(s.db, now, r.id, target, row).Done?
  {
    hide Finalize;
    Container.ChunkCountsAgree(row.size, Container.VERSION);
    LiveReservationIsKept(s, now, r, target, row);
  }

  // ----- a transaction that started early but got the lock late

  function NoQuota(): nat -> UserQuota { (u: nat) => UserQuota(0, 0) }

  function EarlyFile(high: Time): FileRow {
    FileRow(7, 2, 5, None, Some(high), None, 0, None)
  }

  /** Instance limit 10. Upload 1 holds 5; a file of 5 is stored that expires at `high`; at `high`
      its space goes to upload 3. */
  function LateRun(now: Time, high: Time): seq<Step> {
    [StepReserve(now, 1, 5, None, 1), StepReserve(now, 2, 5, None, 2),
     StepFinalize(now, 2, None, EarlyFile(high)), Tick(high), StepReserve(high, 3, 5, None, 3)]
  }

  function LateState(now: Time, high: Time): Sys {
    Sys(Db([EarlyFile(high)], [Reservation(1, 1, 5, None, None, now), Reservation(3, 3, 5, None, None, high)],
           [], [], NoQuota(), 10), high, high)
  }

  lemma RunSnoc(s: Sys, steps: seq<Step>, x: Step)
    ensures Run(s, steps + [x]) == Next(Run(s, steps), x)
    ensures Legal(s, steps + [x]) <==> Legal(s, steps) && Enabled(Run(s, steps), x)
  {
    assert (steps + [x])[..|steps|] == steps;
  }

  lemma Total1<R>(x: R, w: R -> nat)
    ensures Total([x], w) == w(x)
  {
    TotalAppend([], x, w);
    assert [] + [x] == [x];
  }

  lemma Keep2(x: Reservation, y: Reservation, p: Reservation -> bool)
    ensures Keep([x, y], p) == (if p(x) then [x] else []) + (if p(y) then [y] else [])
  {
    assert [x, y][1..] == [y] && [y][1..] == [];
    assert Keep([y], p) == if p(y) then [y] else [];
  }

  /** Half of the space is free, so another 5 fit. */
  lemma HalfFree(db: Db, now: Time, user: nat)
    requires db.totalBytes == 10 && db.quota == NoQuota() && Usage(db, Instance, now) <= 5
    ensures Violation(db, now, user, 5, None).None?
  {
    ViolationIffOverrun(db, now, user, 5, None);
  }

  function Mid(clock: Time, high: Time, files: seq<FileRow>, reservations: seq<Reservation>): Sys {
    Sys(Db(files, reservations, [], [], NoQuota(), 10), clock, high)
  }

  function Five(now: Time, id: nat): Reservation { Reservation(id, id, 5, None, None, now) }

  lemma ReserveFive(s: Sys, now: Time, id: nat)
    requires s.db.totalBytes == 10 && s.db.quota == NoQuota() && Usage(s.db, Instance, now) <= 5
    ensures Next(s, StepReserve(now, id, 5, None, id))
         == Sys(s.db.(reservations := s.db.reservations + [Five(now, id)]), s.clock, Max(s.high, now))
  {
    HalfFree(s.db, now, id);
  }

  lemma LateStart(now: Time, high: Time)
    requires now < high
    ensures Next(Mid(now, now, [], []), LateRun(now, high)[0]) == Mid(now, now, [], [Five(now, 1)])
    ensures Next(Mid(now, now, [], [Five(now, 1)]), LateRun(now, high)[1])
         == Mid(now, now, [], [Five(now, 1), Five(now, 2)])
  {
    hide Next;
    ReserveFive(Mid(now, now, [], []), now, 1);
    Total1(Five(now, 1), ReservationWeight(Instance, now));
    ReserveFive(Mid(now, now, [], [Five(now, 1)]), now, 2);
  }

  lemma LateMiddle(now: Time, high: Time)
    requires now < high
    ensures Next(Mid(now, now, [], [Five(now, 1), Five(now, 2)]), LateRun(now, high)[2])
         == Mid(now, now, [EarlyFile(high)], [Five(now, 1)])
  {
    hide Violation;
    var s := Mid(now, now, [], [Five(now, 1), Five(now, 2)]);
    var rest := Release(s.db, 2);
    Keep2(Five(now, 1), Five(now, 2), (r: Reservation) => r.id != 2);
    Total1(Five(now, 1), ReservationWeight(Instance, now));
    HalfFree(rest, now, 2);
  }

  lemma LateEnd(now: Time, high: Time)
    requires now < high
    ensures Next(Mid(now, now, [EarlyFile(high)], [Five(now, 1)]), LateRun(now, high)[3])
         == Mid(high, now, [EarlyFile(high)], [Five(now, 1)])
    ensures Next(Mid(high, now, [EarlyFile(high)], [Five(now, 1)]), LateRun(now, high)[4]) == LateState(now, high)
  {
    var s := Mid(high, now, [EarlyFile(high)], [Five(now, 1)]);
    Total1(EarlyFile(high), FileWeight(Instance, high, []));
    Total1(Five(now, 1), ReservationWeight(Instance, high));
    ReserveFive(s, high, 3);
  }

  lemma LateStateReachable(now: Time, high: Time)
    requires now < high
    ensures Legal(Empty(NoQuota(), 10, now), LateRun(now, high))
    ensures Run(Empty(NoQuota(), 10, now), LateRun(now, high)) == LateState(now, high)
  {
    hide Next;
    var s0, x := Empty(NoQuota(), 10, now), LateRun(now, high);
    LateStart(now, high);
    LateMiddle(now, high);
    LateEnd(now, high);
    RunSnoc(s0, [], x[0]);
    RunSnoc(s0, [x[0]], x[1]);
    RunSnoc(s0, [x[0], x[1]], x[2]);
    RunSnoc(s0, [x[0], x[1], x[2]], x[3]);
    RunSnoc(s0, [x[0], x[1], x[2], x[3]], x[4]);
    assert [] + [x[0]] == [x[0]] && [x[0]] + [x[1]] == [x[0], x[1]];
    assert [x[0], x[1]] + [x[2]] == [x[0], x[1], x[2]];
    assert [x[0], x[1], x[2]] + [x[3]] == [x[0], x[1], x[2], x[3]];
    assert [x[0], x[1], x[2], x[3]] + [x[4]] == x;
  }

  /** Upload 1 ends, in a transaction that started at `now`, while its reservation is live. */
  lemma LateUploadRefused(now: Time, high: Time)
    requires now < high
    ensures var db := LateState(now, high).db;
      var row := FileRow(8, 1, 5, None, None, None, 0, None);
      && Covered(db, now, db.reservations[0], None, row)
      && Finalize(db, now, 1, None, row) == Refused(InstanceFull)
  {
    var db := LateState(now, high).db;
    var rest := Release(db, 1);
    var r3 := db.reservations[1];
    Keep2(db.reservations[0], r3, (r: Reservation) => r.id != 1);
    assert rest.reservations == [r3];
    Total1(EarlyFile(high), FileWeight(Instance, now, []));
    Total1(r3, ReservationWeight(Instance, now));
  }

  /** In every safe state whose latest admission used timestamp `high`, a transaction with timestamp
      `now` keeps the promise of a live reservation. */
  ghost predicate PromiseKept(now: Time, high: Time) {
    forall s: Sys, r: Reservation, target: Option<DropTarget>, row: FileRow ::
      Safe(s) && s.high == high && Covered(s.db, now, r, target, row) ==> Finalize(s.db, now, r.id, target, row).Done?
  }

  /** The promise holds exactly for transactions that start no earlier than the latest admitted one;
      an earlier one is refused in a state that a real run reaches. */
  lemma PromiseIffInOrder(now: Time, high: Time)
    ensures PromiseKept(now, high) <==> high <= now
  {
    if high <= now {
      forall s: Sys, r: Reservation, target: Option<DropTarget>, row: FileRow
        | Safe(s) && s.high == high && Covered(s.db, now, r, target, row)
        ensures Finalize(s.db, now, r.id, target, row).Done?
      {
        LiveReservationIsKept(s, now, r, target, row);
      }
    } else {
      LateStateReachable(now, high);
      RunIsSafe(NoQuota(), 10, now, LateRun(now, high));
      LateUploadRefused(now, high);
      var s := LateState(now, high);
      assert Safe(s) && s.high == high;
      assert Covered(s.db, now, s.db.reservations[0], None, FileRow(8, 1, 5, None, None, None, 0, None));
    }
  }
}
