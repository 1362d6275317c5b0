/** Rows, blobs and download slots over every interleaving of handlers and sweeper. A handler's
    database statement and its later work on the disk are separate steps. */
module Lifecycle {
  import opened Options
  import opened Tables
  import opened Storage
  import opened Transactions

  /** A download request between reading the row and finishing: the counts it saw are a snapshot. */
  datatype Viewer = Viewer(link: nat, seen: nat, max: Option<int>, consumed: bool)

  /** `uploads` are blobs whose handler has not been told that their row is there, `doomed` the names some handler
      still has to remove, `lost` the rows whose commit took effect but was reported to the handler as an error,
      `served` the successful consumptions of every link, `limitOf` the limit a link was made with. */
  datatype World = World(db: Db, blobs: set<nat>, used: set<nat>, uploads: set<nat>, doomed: set<nat>, lost: set<nat>,
                         viewers: map<nat, Viewer>, served: multiset<nat>, limitOf: map<nat, Option<int>>)

  function Ids(files: seq<FileRow>): set<nat> {
    set f | f in files :: f.id
  }

  ghost predicate Unique(files: seq<FileRow>) {
    |files| > 0 ==> files[0].id !in Ids(files[1..]) && Unique(files[1..])
  }

  function Slots(max: Option<int>): int
    requires max.Some?
  {
    if max.value > 0 then max.value else 0
  }

  ghost predicate RowOk(w: World, f: FileRow) {
    && f.id in w.used && (f.id in w.uploads ==> f.id in w.lost)
    && (f.archivedAt.None? && f.id !in w.lost ==> f.id in w.blobs && f.id !in w.doomed)
    && f.id in w.limitOf && w.limitOf[f.id] == f.maxDownloads
    && w.served[f.id] == f.downloads
  }

  /** What a request saw is never ahead of the row, and what it consumed is counted there. */
  ghost predicate ViewerOk(v: Viewer, f: FileRow) {
    v.link == f.id ==> v.max == f.maxDownloads && v.seen + (if v.consumed then 1 else 0) <= f.downloads
  }

  ghost predicate Inv(w: World) {
    && Unique(w.db.files)
    && (forall f :: f in w.db.files ==> RowOk(w, f))
    && w.uploads <= w.used && w.uploads - w.lost <= w.blobs && w.uploads - w.lost !! w.doomed && w.doomed <= w.used
    && w.limitOf.Keys <= w.used && w.limitOf.Keys !! w.uploads - w.lost && w.lost <= w.limitOf.Keys
    && (forall id :: id in w.served ==> id in w.limitOf)
    && (forall id :: id in w.limitOf && w.limitOf[id].Some? ==> w.served[id] <= Slots(w.limitOf[id]))
    && (forall k, f :: k in w.viewers && f in w.db.files ==> ViewerOk(w.viewers[k], f))
    && (forall k :: k in w.viewers ==> w.viewers[k].link in w.limitOf)
  }

  // ----- rows with distinct ids

  lemma {:induction false} UniqueIn(files: seq<FileRow>, f: FileRow, g: FileRow)
    requires Unique(files) && f in files && g in files && f.id == g.id
    ensures f == g
  {
    assert forall x :: x in files <==> x == files[0] || x in files[1..];
    if f in files[1..] && g in files[1..] {
      UniqueIn(files[1..], f, g);
    }
  }

  lemma {:induction false} UniqueKeep(files: seq<FileRow>, p: FileRow -> bool)
    requires Unique(files)
    ensures Unique(Keep(files, p))
  {
    if |files| > 0 {
      UniqueKeep(files[1..], p);
      var rest := Keep(files[1..], p);
      assert ([files[0]] + rest)[1..] == rest;
      forall x | x in Ids(rest) ensures x in Ids(files[1..]) {
        var f :| f in rest && f.id == x;
        KeepIn(files[1..], p, f);
      }
    }
  }

  lemma {:induction false} UniqueUpdate(files: seq<FileRow>, g: FileRow -> FileRow)
    requires Unique(files) && forall f :: g(f).id == f.id
    ensures Unique(Update(files, g)) && Ids(Update(files, g)) == Ids(files)
  {
    if |files| > 0 {
      UniqueUpdate(files[1..], g);
      assert Update(files, g)[1..] == Update(files[1..], g);
      assert Ids(files) == {files[0].id} + Ids(files[1..]) by {
        assert forall f :: f in files <==> f == files[0] || f in files[1..];
      }
      var u := Update(files, g);
      assert Ids(u) == {u[0].id} + Ids(u[1..]) by {
        assert forall f :: f in u <==> f == u[0] || f in u[1..];
      }
    }
  }

  lemma {:induction false} UniqueAppend(files: seq<FileRow>, f: FileRow)
    requires Unique(files) && f.id !in Ids(files)
    ensures Unique(files + [f])
  {
    if |files| == 0 {
      assert (files + [f])[1..] == [];
    } else {
      assert files[0] in files;
      assert (files + [f])[1..] == files[1..] + [f];
      assert f.id !in Ids(files[1..]) by {
        assert forall g :: g in files[1..] ==> g in files;
      }
      UniqueAppend(files[1..], f);
      assert Ids(files[1..] + [f]) == Ids(files[1..]) + {f.id} by {
        assert forall g :: g in files[1..] + [f] <==> g in files[1..] || g == f;
      }
    }
  }

  // ----- steps

  datatype Step =
    /** OpenFile with O_EXCL under a new random name. */
    | WriteBlob(id: nat)
    /** The copy failed or the final transaction was refused: the handler removes its blob. */
    | AbandonUpload(id: nat)
    | InsertRow(now: Time, reservation: nat, target: Option<DropTarget>, row: FileRow)
    /** The transaction commits, but the handler sees an error and will remove its blob. */
    | InsertUnseen(now: Time, reservation: nat, target: Option<DropTarget>, row: FileRow)
    /** UPDATE ... RETURNING stored_name, for any of the archiving statements. */
    | Archive(now: Time, update: ArchiveStatement)
    /** DELETE of file rows; `collected` says whether the statement returned their names. */
    | Delete(delete: DeleteStatement)
    | RemoveBlob(id: nat)
    | LoadLink(viewer: nat, now: Time, link: nat)
    | Consume(viewer: nat, now: Time)
    | ArchiveIfSpent(viewer: nat, now: Time)
    /** Every handler in flight is lost. */
    | Crash

  datatype ArchiveStatement =
    | ExpiredFiles | OneFile(id: nat) | MembersOf(batch: nat) | FilesOfExpiredDrops

  datatype DeleteStatement =
    | PastRetentionFiles(now: Time)
    | ByIds(ids: set<nat>, caller: Option<nat>)
    | FilesOfDrop(drop: nat)
    /** Cascades return no names. */
    | CascadeFromBatches(batches: set<nat>)
    | CascadeFromDrops(drops: set<nat>)

  predicate Matches(db: Db, now: Time, a: ArchiveStatement, f: FileRow) {
    match a
    case ExpiredFiles => DeadFile(f, now)
    case OneFile(id) => f.id == id
    case MembersOf(batch) => f.batch == Some(batch)
    case FilesOfExpiredDrops => InDrops(db, f.batch, LapsedDrops(db, now))
  }

  function Matching(db: Db, now: Time, a: ArchiveStatement): FileRow -> bool {
    (f: FileRow) => Matches(db, now, a, f)
  }

  function ArchiveDb(db: Db, now: Time, a: ArchiveStatement): Db {
    ArchiveFiles(db, now, Matching(db, now, a))
  }

  /** The names the statement returns. */
  function Returned(db: Db, now: Time, a: ArchiveStatement): set<nat> {
    set f | f in db.files && Matches(db, now, a, f) && f.archivedAt.None? :: f.id
  }

  predicate Deletes(db: Db, d: DeleteStatement, f: FileRow) {
    match d
    case PastRetentionFiles(now) => PastRetention(f.archivedAt, now)
    case ByIds(ids, caller) => f.id in ids && (caller.None? || f.owner == caller.value)
    case FilesOfDrop(drop) => InDrop(db.batches, f.batch, drop)
    case CascadeFromBatches(batches) => f.batch.Some? && f.batch.value in batches
    case CascadeFromDrops(drops) => f.batch.Some? && f.batch.value in BatchesOf(db, drops)
  }

  function Doomed(db: Db, d: DeleteStatement): FileRow -> bool {
    (f: FileRow) => Deletes(db, d, f)
  }

  function DeleteDb(db: Db, d: DeleteStatement): Db {
    match d
    case PastRetentionFiles(_) => DeleteFiles(db, Doomed(db, d))
    case ByIds(_, _) => DeleteFiles(db, Doomed(db, d))
    case FilesOfDrop(_) => DeleteFiles(db, Doomed(db, d))
    case CascadeFromBatches(batches) => DeleteBatches(db, batches)
    case CascadeFromDrops(drops) => DeleteDrops(db, drops)
  }

  function Collected(db: Db, d: DeleteStatement): set<nat> {
    match d
    case CascadeFromBatches(_) => {}
    case CascadeFromDrops(_) => {}
    case _ => set f | f in db.files && Deletes(db, d, f) :: f.id
  }

  /** A row to be inserted is the handler's own new one. */
  predicate NewRow(w: World, row: FileRow) {
    row.id in w.uploads && row.id !in w.lost && row.downloads == 0 && row.archivedAt.None?
  }

  ghost predicate Enabled(w: World, step: Step) {
    match step
    case WriteBlob(id) => id !in w.used
    case AbandonUpload(id) => id in w.uploads
    case InsertRow(_, _, _, row) => NewRow(w, row)
    case InsertUnseen(now, reservation, target, row) =>
      NewRow(w, row) && Finalize(w.db, now, reservation, target, row).Done?
    case RemoveBlob(id) => id in w.doomed
    case LoadLink(_, now, link) => exists f :: f in w.db.files && f.id == link && CanOpen(f, now)
    case Consume(v, _) => v in w.viewers && !w.viewers[v].consumed
    case ArchiveIfSpent(v, _) => v in w.viewers && w.viewers[v].consumed
    case _ => true
  }

  /** The checks a download request passes before it is counted. */
  predicate CanOpen(f: FileRow, now: Time) {
    !Spent(f.maxDownloads, f.downloads) && f.archivedAt.None? && !Lapsed(f.expiresAt, now)
  }

  /** The UPDATE of a download finds a row with a free slot. */
  predicate Counts(db: Db, id: nat, now: Time) {
    exists f :: f in db.files && f.id == id && HasSlot(f.maxDownloads, f.downloads, f.expiresAt, now)
  }

  ghost function Next(w: World, step: Step): World
    requires Enabled(w, step)
  {
    match step
    case WriteBlob(id) => w.(used := w.used + {id}, blobs := w.blobs + {id}, uploads := w.uploads + {id})
    case AbandonUpload(id) => w.(blobs := w.blobs - {id}, uploads := w.uploads - {id})
    case InsertRow(now, reservation, target, row) =>
      (match Finalize(w.db, now, reservation, target, row)
       case Refused(_) => w
       case Done(db) => w.(db := db, uploads := w.uploads - {row.id}, limitOf := w.limitOf[row.id := row.maxDownloads]))
    case InsertUnseen(now, reservation, target, row) =>
      w.(db := Finalize(w.db, now, reservation, target, row).db, lost := w.lost + {row.id},
         limitOf := w.limitOf[row.id := row.maxDownloads])
    case Archive(now, a) => w.(db := ArchiveDb(w.db, now, a), doomed := w.doomed + Returned(w.db, now, a))
    case Delete(d) => w.(db := DeleteDb(w.db, d), doomed := w.doomed + Collected(w.db, d))
    case RemoveBlob(id) => w.(blobs := w.blobs - {id}, doomed := w.doomed - {id})
    case LoadLink(v, now, link) =>
      var f :| f in w.db.files && f.id == link && CanOpen(f, now);
      w.(viewers := w.viewers[v := Viewer(link, f.downloads, f.maxDownloads, false)])
    case Consume(v, now) =>
      var viewer := w.viewers[v];
      if Counts(w.db, viewer.link, now) then
        w.(db := ConsumeFile(w.db, now, viewer.link), viewers := w.viewers[v := viewer.(consumed := true)],
           served := w.served + multiset{viewer.link})
      else w.(viewers := w.viewers - {v})
    case ArchiveIfSpent(v, now) =>
      var viewer := w.viewers[v];
      var done := w.(viewers := w.viewers - {v});
      if viewer.max.Some? && viewer.seen + 1 >= viewer.max.value then
        done.(db := ArchiveFile(w.db, now, viewer.link), doomed := w.doomed + Returned(w.db, now, OneFile(viewer.link)))
      else done
    case Crash => w.(uploads := {}, doomed := {}, viewers := map[])
  }

  // ----- the invariant is kept

  ghost predicate ArchivedFrom(db: Db, now: Time, a: ArchiveStatement, f: FileRow, f': FileRow) {
    && f' == f.(archivedAt := f'.archivedAt)
    && (f.archivedAt.Some? ==> f' == f)
    && (f'.archivedAt.None? ==> f' == f && f.id !in Returned(db, now, a))
  }

  /** After an archiving statement every unarchived row is untouched, and its name was not returned. */
  lemma ArchiveRows(db: Db, now: Time, a: ArchiveStatement, f': FileRow)
    requires Unique(db.files) && f' in ArchiveDb(db, now, a).files
    ensures exists f :: f in db.files && ArchivedFrom(db, now, a, f, f')
  {
    var g := ArchiveIf(now, Matching(db, now, a));
    ArchiveIfKeeps(now, Matching(db, now, a));
    UpdateIn(db.files, g, f');
    var f :| f in db.files && f' == g(f);
    if f'.archivedAt.None? && f.id in Returned(db, now, a) {
      var h :| h in db.files && Matches(db, now, a, h) && h.archivedAt.None? && h.id == f.id;
      UniqueIn(db.files, f, h);
      assert false;
    }
  }

  lemma ArchiveRowOk(w: World, now: Time, a: ArchiveStatement, f': FileRow)
    requires Inv(w) && f' in ArchiveDb(w.db, now, a).files
    ensures RowOk(w.(db := ArchiveDb(w.db, now, a), doomed := w.doomed + Returned(w.db, now, a)), f')
    ensures forall k :: k in w.viewers ==> ViewerOk(w.viewers[k], f')
  {
    hide ArchiveDb, Returned;
    ArchiveRows(w.db, now, a, f');
    var f :| f in w.db.files && ArchivedFrom(w.db, now, a, f, f');
    assert RowOk(w, f);
    forall k | k in w.viewers ensures ViewerOk(w.viewers[k], f') {
      assert ViewerOk(w.viewers[k], f);
    }
  }

  lemma ArchiveKeeps(w: World, now: Time, a: ArchiveStatement)
    requires Inv(w)
    ensures Inv(w.(db := ArchiveDb(w.db, now, a), doomed := w.doomed + Returned(w.db, now, a)))
  {
    hide RowOk, ViewerOk;
    var w' := w.(db := ArchiveDb(w.db, now, a), doomed := w.doomed + Returned(w.db, now, a));
    ArchiveIfKeeps(now, Matching(w.db, now, a));
    UniqueUpdate(w.db.files, ArchiveIf(now, Matching(w.db, now, a)));
    forall f' | f' in w'.db.files
      ensures RowOk(w', f') && forall k :: k in w.viewers ==> ViewerOk(w.viewers[k], f')
    {
      ArchiveRowOk(w, now, a, f');
    }
    forall id | id in Returned(w.db, now, a) ensures id in w.used && id !in w.uploads - w.lost {
      var f :| f in w.db.files && f.id == id;
      RowUsed(w, f);
    }
  }

  lemma RowUsed(w: World, f: FileRow)
    requires RowOk(w, f)
    ensures f.id in w.used && f.id !in w.uploads - w.lost && f.id in w.limitOf
  {
  }

  lemma DeleteRows(db: Db, d: DeleteStatement, f: FileRow)
    requires f in DeleteDb(db, d).files
    ensures f in db.files && !Deletes(db, d, f)
  {
    match d
    case CascadeFromBatches(dead) => KeepIn(db.files, OutsideBatches(dead), f);
    case CascadeFromDrops(drops) => KeepIn(db.files, OutsideBatches(BatchesOf(db, drops)), f);
    case _ => KeepIn(db.files, Not(Doomed(db, d)), f);
  }

  lemma DeleteUnique(db: Db, d: DeleteStatement)
    requires Unique(db.files)
    ensures Unique(DeleteDb(db, d).files)
  {
    match d
    case CascadeFromBatches(dead) => UniqueKeep(db.files, OutsideBatches(dead));
    case CascadeFromDrops(drops) => UniqueKeep(db.files, OutsideBatches(BatchesOf(db, drops)));
    case _ => UniqueKeep(db.files, Not(Doomed(db, d)));
  }

  lemma DeleteKeeps(w: World, d: DeleteStatement)
    requires Inv(w)
    ensures Inv(w.(db := DeleteDb(w.db, d), doomed := w.doomed + Collected(w.db, d)))
  {
    var db' := DeleteDb(w.db, d);
    var w' := w.(db := db', doomed := w.doomed + Collected(w.db, d));
    DeleteUnique(w.db, d);
    forall f | f in db'.files
      ensures RowOk(w', f) && forall k :: k in w.viewers ==> ViewerOk(w.viewers[k], f)
    {
      DeleteRows(w.db, d, f);
      assert RowOk(w, f);
      if f.id in Collected(w.db, d) {
        var h :| h in w.db.files && Deletes(w.db, d, h) && h.id == f.id;
        UniqueIn(w.db.files, f, h);
        assert false;
      }
    }
    forall id | id in Collected(w.db, d) ensures id in w.used && id !in w.uploads - w.lost {
      var f :| f in w.db.files && f.id == id;
      assert RowOk(w, f);
    }
  }

  lemma InsertKeeps(w: World, now: Time, reservation: nat, target: Option<DropTarget>, row: FileRow)
    requires Inv(w) && Enabled(w, InsertRow(now, reservation, target, row))
    ensures Inv(Next(w, InsertRow(now, reservation, target, row)))
  {
    var w' := Next(w, InsertRow(now, reservation, target, row));
    if Finalize(w.db, now, reservation, target, row).Done? {
      assert w'.db.files == w.db.files + [row];
      assert row.id !in Ids(w.db.files) by {
        forall f | f in w.db.files ensures f.id != row.id {
          assert RowOk(w, f);
        }
      }
      UniqueAppend(w.db.files, row);
      assert w.served[row.id] == 0 by {
        assert row.id !in w.limitOf;
      }
      forall f | f in w'.db.files
        ensures RowOk(w', f) && forall k :: k in w'.viewers ==> ViewerOk(w'.viewers[k], f)
      {
        if f in w.db.files {
          assert RowOk(w, f);
        } else {
          assert f == row;
        }
      }
    }
  }

  lemma InsertUnseenKeeps(w: World, now: Time, reservation: nat, target: Option<DropTarget>, row: FileRow)
    requires Inv(w) && Enabled(w, InsertUnseen(now, reservation, target, row))
    ensures Inv(Next(w, InsertUnseen(now, reservation, target, row)))
  {
    hide Unique;
    var w' := Next(w, InsertUnseen(now, reservation, target, row));
    FinalizeAppends(w.db, now, reservation, target, row);
    NewId(w, row);
    UniqueAppend(w.db.files, row);
    forall f | f in w'.db.files
      ensures RowOk(w', f) && forall k :: k in w'.viewers ==> ViewerOk(w'.viewers[k], f)
    {
      if f in w.db.files {
        assert RowOk(w, f);
      } else {
        assert f == row;
      }
    }
  }

  lemma FinalizeAppends(db: Db, now: Time, reservation: nat, target: Option<DropTarget>, row: FileRow)
    requires Finalize(db, now, reservation, target, row).Done?
    ensures Finalize(db, now, reservation, target, row).db.files == db.files + [row]
  {
  }

  lemma NewId(w: World, row: FileRow)
    requires Inv(w) && NewRow(w, row)
    ensures row.id !in Ids(w.db.files) && w.served[row.id] == 0 && row.id !in w.limitOf
  {
    forall f | f in w.db.files ensures f.id != row.id {
      assert RowOk(w, f);
    }
  }

  lemma ConsumeKeeps(w: World, v: nat, now: Time)
    requires Inv(w) && Enabled(w, Consume(v, now)) && Counts(w.db, w.viewers[v].link, now)
    ensures Inv(Next(w, Consume(v, now)))
  {
    hide Unique;
    var w' := Next(w, Consume(v, now));
    var link := w.viewers[v].link;
    UniqueUpdate(w.db.files, CountFile(now, link));
    var h :| h in w.db.files && h.id == link && HasSlot(h.maxDownloads, h.downloads, h.expiresAt, now);
    assert RowOk(w, h);
    forall f' | f' in w'.db.files
      ensures RowOk(w', f') && forall k :: k in w'.viewers ==> ViewerOk(w'.viewers[k], f')
    {
      UpdateIn(w.db.files, CountFile(now, link), f');
      var f :| f in w.db.files && f' == CountFile(now, link)(f);
      assert RowOk(w, f);
      if f.id == link {
        UniqueIn(w.db.files, f, h);
      }
      forall k | k in w'.viewers ensures ViewerOk(w'.viewers[k], f') {
        assert ViewerOk(w.viewers[k], f);
      }
    }
  }

  lemma NextKeeps(w: World, step: Step)
    requires Inv(w) && Enabled(w, step)
    ensures Inv(Next(w, step))
  {
    hide Unique, ArchiveDb, Returned, DeleteDb, Collected, Finalize;
    match step
    case WriteBlob(id) =>
      forall f | f in w.db.files ensures RowOk(Next(w, step), f) { assert RowOk(w, f); }
    case AbandonUpload(id) =>
      forall f | f in w.db.files ensures RowOk(Next(w, step), f) { assert RowOk(w, f); }
    case InsertRow(now, reservation, target, row) => InsertKeeps(w, now, reservation, target, row);
    case InsertUnseen(now, reservation, target, row) => InsertUnseenKeeps(w, now, reservation, target, row);
    case Archive(now, a) => ArchiveKeeps(w, now, a);
    case Delete(d) => DeleteKeeps(w, d);
    case RemoveBlob(id) =>
      forall f | f in w.db.files ensures RowOk(Next(w, step), f) { assert RowOk(w, f); }
    case LoadLink(v, now, link) => LoadKeeps(w, v, now, link);
    case Consume(v, now) =>
      if Counts(w.db, w.viewers[v].link, now) {
        ConsumeKeeps(w, v, now);
      } else {
        DropViewerKeeps(w, v);
      }
    case ArchiveIfSpent(v, now) =>
      DropViewerKeeps(w, v);
      ArchiveKeeps(w.(viewers := w.viewers - {v}), now, OneFile(w.viewers[v].link));
      OneFileArchive(w.db, now, w.viewers[v].link);
    case Crash =>
      forall f | f in w.db.files ensures RowOk(Next(w, step), f) { assert RowOk(w, f); }
  }

  lemma OneFileArchive(db: Db, now: Time, id: nat)
    ensures ArchiveFile(db, now, id) == ArchiveDb(db, now, OneFile(id))
  {
    var p, q := (f: FileRow) => f.id == id, Matching(db, now, OneFile(id));
    assert Update(db.files, ArchiveIf(now, p)) == Update(db.files, ArchiveIf(now, q));
  }

  lemma DropViewerKeeps(w: World, v: nat)
    requires Inv(w)
    ensures Inv(w.(viewers := w.viewers - {v}))
  {
    var w' := w.(viewers := w.viewers - {v});
    forall f | f in w.db.files ensures RowOk(w', f) { assert RowOk(w, f); }
  }

  lemma LoadKeeps(w: World, v: nat, now: Time, link: nat)
    requires Inv(w) && Enabled(w, LoadLink(v, now, link))
    ensures Inv(Next(w, LoadLink(v, now, link)))
  {
    var w' := Next(w, LoadLink(v, now, link));
    var h :| h in w.db.files && h.id == link && w'.viewers[v] == Viewer(link, h.downloads, h.maxDownloads, false);
    assert RowOk(w, h);
    forall f | f in w.db.files
      ensures RowOk(w', f) && forall k :: k in w'.viewers ==> ViewerOk(w'.viewers[k], f)
    {
      assert RowOk(w, f);
      if f.id == link {
        UniqueIn(w.db.files, f, h);
      }
    }
  }

  // ----- whole runs

  ghost predicate Reachable(w: World, steps: seq<Step>, w': World)
    decreases |steps|
  {
    if |steps| == 0 then w' == w
    else Enabled(w, steps[0]) && Reachable(Next(w, steps[0]), steps[1..], w')
  }

  function Start(db: Db): World
  {
    World(db, {}, {}, {}, {}, {}, map[], multiset{}, map[])
  }

  lemma {:induction false} RunKeeps(w: World, steps: seq<Step>, w': World)
    requires Inv(w) && Reachable(w, steps, w')
    ensures Inv(w')
    decreases |steps|
  {
    if |steps| > 0 {
      NextKeeps(w, steps[0]);
      RunKeeps(Next(w, steps[0]), steps[1..], w');
    }
  }

  /** After every run from an empty database, every unarchived row whose commit its handler saw has its blob on
      disk, and no link was ever served more often than the limit it was made with. */
  lemma LifecycleSafety(db: Db, steps: seq<Step>, w: World)
    requires db.files == [] && Reachable(Start(db), steps, w)
    ensures forall f :: f in w.db.files && f.archivedAt.None? && f.id !in w.lost ==> f.id in w.blobs
    ensures forall id :: id in w.limitOf && w.limitOf[id].Some? ==> w.served[id] <= Slots(w.limitOf[id])
  {
    RunKeeps(Start(db), steps, w);
    forall f | f in w.db.files && f.archivedAt.None? && f.id !in w.lost ensures f.id in w.blobs {
      assert RowOk(w, f);
    }
  }

  /** The exception is real: whenever a commit that took effect is reported as an error, the handler goes on to
      remove the blob, and the row stays without one. */
  lemma UnseenCommitLosesBlob(db: Db, now: Time, reservation: nat, target: Option<DropTarget>, row: FileRow, w: World)
    requires db.files == [] && row.downloads == 0 && row.archivedAt.None?
    requires Finalize(db, now, reservation, target, row).Done?
    requires w == World(Finalize(db, now, reservation, target, row).db, {}, {row.id}, {}, {}, {row.id}, map[], multiset{},
                        map[row.id := row.maxDownloads])
    ensures Reachable(Start(db), [WriteBlob(row.id), InsertUnseen(now, reservation, target, row), AbandonUpload(row.id)], w)
    ensures row in w.db.files && row.id !in w.blobs
  {
    hide Finalize;
    FinalizeAppends(db, now, reservation, target, row);
    var x, y, z := WriteBlob(row.id), InsertUnseen(now, reservation, target, row), AbandonUpload(row.id);
    var w1 := Next(Start(db), x);
    var w2 := Next(w1, y);
    assert Next(w2, z) == w;
    assert [z][1..] == [] && [y, z][1..] == [z] && [x, y, z][1..] == [y, z];
    assert Reachable(w2, [z], w);
    assert Reachable(w1, [y, z], w);
  }

  /** A request that saw the link's last slot and took it retires the link, and its blob is removed. */
  lemma LastRequestRetires(w: World, v: nat, now: Time, f: FileRow)
    requires Inv(w) && Enabled(w, ArchiveIfSpent(v, now)) && f in w.db.files && f.archivedAt == None
    requires f.id == w.viewers[v].link && f.maxDownloads.Some? && w.viewers[v].seen + 1 >= f.maxDownloads.value
    ensures var w' := Next(w, ArchiveIfSpent(v, now));
      f.(archivedAt := Some(now)) in w'.db.files && f.id in w'.doomed
  {
    hide Unique, RowOk;
    assert ViewerOk(w.viewers[v], f);
    var one := Matching(w.db, now, OneFile(f.id));
    OneFileArchive(w.db, now, f.id);
    assert one(f);
    assert ArchiveIf(now, one)(f) == f.(archivedAt := Some(now));
    UpdateIn(w.db.files, ArchiveIf(now, one), f.(archivedAt := Some(now)));
  }

  /** The names an archiving or deleting statement returns are those of the rows it retired, so their blobs are removed;
      only the cascades of a deleted batch or drop return none. */
  lemma RetiredIsDoomed(w: World, step: Step, f: FileRow)
    requires Inv(w) && f in w.db.files
    requires step.Archive? ==> f.archivedAt == None
    requires step.Archive? || (step.Delete? && !step.delete.CascadeFromBatches? && !step.delete.CascadeFromDrops?)
    ensures f !in Next(w, step).db.files ==> f.id in Next(w, step).doomed
  {
    if step.Archive? {
      UpdateIn(w.db.files, ArchiveIf(step.now, Matching(w.db, step.now, step.update)), f);
      assert Matching(w.db, step.now, step.update)(f) == Matches(w.db, step.now, step.update, f);
      assert ArchiveIf(step.now, Matching(w.db, step.now, step.update))(f) ==
        if Matches(w.db, step.now, step.update, f) then Archived(f, step.now) else f;
    }
    if step.Delete? {
      KeepIn(w.db.files, Not(Doomed(w.db, step.delete)), f);
    }
  }

  /** The archive-if-spent check looks at a stale count, yet never retires a link with a slot left. */
  lemma StaleCheckIsSound(w: World, v: nat, now: Time, f: FileRow)
    requires Inv(w) && Enabled(w, ArchiveIfSpent(v, now))
    requires f in w.db.files && f.archivedAt.None? && f !in Next(w, ArchiveIfSpent(v, now)).db.files
    ensures Spent(f.maxDownloads, f.downloads)
  {
    assert ViewerOk(w.viewers[v], f);
    var link := w.viewers[v].link;
    if f.id != link {
      OneFileArchive(w.db, now, link);
      UpdateIn(w.db.files, ArchiveIf(now, Matching(w.db, now, OneFile(link))), f);
      assert false;
    }
  }

  /** An archived row stays archived, at the same time, until it is deleted. */
  lemma ArchivingIsFinal(w: World, step: Step, f: FileRow, f': FileRow)
    requires Inv(w) && Enabled(w, step)
    requires f in w.db.files && f.archivedAt.Some? && f' in Next(w, step).db.files && f'.id == f.id
    ensures f'.archivedAt == f.archivedAt
  {
    NextKeeps(w, step);
    match step
    case Archive(now, a) =>
      ArchiveRows(w.db, now, a, f');
      var g :| g in w.db.files && ArchivedFrom(w.db, now, a, g, f');
      UniqueIn(w.db.files, f, g);
    case ArchiveIfSpent(v, now) =>
      var a := OneFile(w.viewers[v].link);
      OneFileArchive(w.db, now, w.viewers[v].link);
      if f' !in w.db.files {
        ArchiveRows(w.db, now, a, f');
        var g :| g in w.db.files && ArchivedFrom(w.db, now, a, g, f');
        UniqueIn(w.db.files, f, g);
      } else {
        UniqueIn(w.db.files, f, f');
      }
    case Delete(d) =>
      DeleteRows(w.db, d, f');
      UniqueIn(w.db.files, f, f');
    case Consume(v, now) =>
      if f' !in w.db.files {
        UpdateIn(w.db.files, CountFile(now, w.viewers[v].link), f');
        var g :| g in w.db.files && f' == CountFile(now, w.viewers[v].link)(g);
        UniqueIn(w.db.files, f, g);
      } else {
        UniqueIn(w.db.files, f, f');
      }
    case InsertRow(now, reservation, target, row) =>
      assert RowOk(w, f);
      if f' in w.db.files {
        UniqueIn(w.db.files, f, f');
      }
    case InsertUnseen(now, reservation, target, row) =>
      assert RowOk(w, f);
      FinalizeAppends(w.db, now, reservation, target, row);
      if f' in w.db.files {
        UniqueIn(w.db.files, f, f');
      }
    case _ => UniqueIn(w.db.files, f, f');
  }
}
