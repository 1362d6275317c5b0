/** The download slots of batch links over every interleaving: one slot for each member file that leaves the server. */
module BatchSlots {
  import opened Options
  import opened Storage
  import opened Transactions

  /** A member download between reading the batch row and finishing. */
  datatype Viewer = Viewer(batch: nat, seen: nat, max: Option<int>, consumed: bool)

  /** `served` counts the member files that left the server, `limitOf` keeps the limit each link was made with. */
  datatype World = World(rows: map<nat, BatchRow>, viewers: map<nat, Viewer>, served: multiset<nat>,
                         limitOf: map<nat, Option<int>>)

  function Slots(max: Option<int>): int
    requires max.Some?
  {
    if max.value > 0 then max.value else 0
  }

  datatype Step =
    | Insert(row: BatchRow)
    | Load(viewer: nat, now: Time, batch: nat)
    | Consume(viewer: nat, now: Time)
    | ArchiveIfSpent(viewer: nat, now: Time)
    | Sweep(now: Time)
    | Purge(now: Time)
    | Delete(ids: set<nat>)
    | Crash

  predicate Open(b: BatchRow, now: Time) {
    b.archivedAt.None? && HasSlot(b.maxDownloads, b.downloads, b.expiresAt, now)
  }

  ghost predicate Enabled(w: World, step: Step) {
    match step
    case Insert(row) => row.id !in w.limitOf && row.downloads == 0 && row.archivedAt.None?
    case Load(_, now, batch) => batch in w.rows && Open(w.rows[batch], now)
    case Consume(v, _) => v in w.viewers && !w.viewers[v].consumed
    case ArchiveIfSpent(v, _) => v in w.viewers && w.viewers[v].consumed
    case _ => true
  }

  /** UPDATE ... WHERE archived_at IS NULL. */
  function Retire(b: BatchRow, now: Time): BatchRow {
    if b.archivedAt.None? then b.(archivedAt := Some(now)) else b
  }

  function Next(w: World, step: Step): World
    requires Enabled(w, step)
  {
    match step
    case Insert(row) => w.(rows := w.rows[row.id := row], limitOf := w.limitOf[row.id := row.maxDownloads])
    case Load(v, _, batch) =>
      var b := w.rows[batch];
      w.(viewers := w.viewers[v := Viewer(batch, b.downloads, b.maxDownloads, false)])
    case Consume(v, now) =>
      var x := w.viewers[v];
      if x.batch in w.rows && HasSlot(w.rows[x.batch].maxDownloads, w.rows[x.batch].downloads, w.rows[x.batch].expiresAt, now)
      then
        var b := w.rows[x.batch];
        w.(rows := w.rows[x.batch := b.(downloads := b.downloads + 1)], viewers := w.viewers[v := x.(consumed := true)],
           served := w.served + multiset{x.batch})
      else w.(viewers := w.viewers - {v})
    case ArchiveIfSpent(v, now) =>
      var x := w.viewers[v];
      var done := w.(viewers := w.viewers - {v});
      if x.max.Some? && x.seen + 1 >= x.max.value && x.batch in w.rows
      then done.(rows := w.rows[x.batch := Retire(w.rows[x.batch], now)])
      else done
    case Sweep(now) =>
      w.(rows := map id | id in w.rows :: if DeadBatch(w.rows[id], now) then Retire(w.rows[id], now) else w.rows[id])
    case Purge(now) => w.(rows := map id | id in w.rows && !PastRetention(w.rows[id].archivedAt, now) :: w.rows[id])
    case Delete(ids) => w.(rows := w.rows - ids)
    case Crash => w.(viewers := map[])
  }

  ghost predicate RowOk(w: World, id: nat)
    requires id in w.rows
  {
    var b := w.rows[id];
    id in w.limitOf && w.limitOf[id] == b.maxDownloads && w.served[id] == b.downloads
  }

  /** What a request saw is never ahead of the row, and what it consumed is counted there. */
  ghost predicate ViewerOk(w: World, x: Viewer) {
    && x.batch in w.limitOf && x.max == w.limitOf[x.batch]
    && x.seen + (if x.consumed then 1 else 0) <= w.served[x.batch]
  }

  ghost predicate Inv(w: World) {
    && (forall id :: id in w.rows ==> RowOk(w, id))
    && (forall v :: v in w.viewers ==> ViewerOk(w, w.viewers[v]))
    && (forall id :: id in w.served ==> id in w.limitOf)
    && (forall id :: id in w.limitOf && w.limitOf[id].Some? ==> w.served[id] <= Slots(w.limitOf[id]))
  }

  lemma RowsKeep(w: World, step: Step, id: nat)
    requires Inv(w) && Enabled(w, step) && id in Next(w, step).rows
    ensures RowOk(Next(w, step), id)
  {
    hide HasSlot, DeadBatch, PastRetention, ViewerOk;
    if id in w.rows {
      assert RowOk(w, id);
    }
  }

  lemma ViewersKeep(w: World, step: Step, v: nat)
    requires Inv(w) && Enabled(w, step) && v in Next(w, step).viewers
    ensures ViewerOk(Next(w, step), Next(w, step).viewers[v])
  {
    hide HasSlot, DeadBatch, PastRetention;
    if v in w.viewers {
      assert ViewerOk(w, w.viewers[v]);
    }
    if step.Load? {
      assert RowOk(w, step.batch);
    }
  }

  lemma SlotsKeep(w: World, step: Step, id: nat)
    requires Inv(w) && Enabled(w, step)
    ensures id in Next(w, step).served ==> id in Next(w, step).limitOf
    ensures id in Next(w, step).limitOf && Next(w, step).limitOf[id].Some? ==>
      Next(w, step).served[id] <= Slots(Next(w, step).limitOf[id])
  {
    hide DeadBatch, PastRetention, ViewerOk;
    if step.Consume? && w.viewers[step.viewer].batch in w.rows {
      assert RowOk(w, w.viewers[step.viewer].batch);
    }
  }

  lemma NextKeeps(w: World, step: Step)
    requires Inv(w) && Enabled(w, step)
    ensures Inv(Next(w, step))
  {
    hide Next, RowOk, ViewerOk;
    var w' := Next(w, step);
    forall id | id in w'.rows ensures RowOk(w', id) {
      RowsKeep(w, step, id);
    }
    forall v | v in w'.viewers ensures ViewerOk(w', w'.viewers[v]) {
      ViewersKeep(w, step, v);
    }
    forall id: nat
      ensures id in w'.served ==> id in w'.limitOf
      ensures id in w'.limitOf && w'.limitOf[id].Some? ==> w'.served[id] <= Slots(w'.limitOf[id])
    {
      SlotsKeep(w, step, id);
    }
  }

  ghost predicate Reachable(w: World, steps: seq<Step>, w': World)
    decreases |steps|
  {
    if |steps| == 0 then w' == w else Enabled(w, steps[0]) && Reachable(Next(w, steps[0]), steps[1..], w')
  }

  lemma {:induction false} RunKeeps(w: World, steps: seq<Step>, w': World)
    requires Inv(w) && Reachable(w, steps, w')
    ensures Inv(w')
    decreases |steps|
  {
    if |steps| > 0 {
      NextKeeps(w, steps[0]);
      RunKeeps(Next(w, steps[0]), steps[1..], w');
    }
  }

  /** In every run, no batch link serves more files than the limit it was made with, even after its row is gone. */
  lemma SlotsSafety(steps: seq<Step>, w: World, id: nat)
    requires Reachable(World(map[], map[], multiset{}, map[]), steps, w)
    requires id in w.limitOf && w.limitOf[id].Some?
    ensures w.served[id] <= Slots(w.limitOf[id])
  {
    RunKeeps(World(map[], map[], multiset{}, map[]), steps, w);
  }

  /** A member download is served exactly while the batch row is there, below its limit and before its expiry. */
  lemma ServedIff(w: World, v: nat, now: Time)
    requires Enabled(w, Consume(v, now))
    ensures var b := w.viewers[v].batch;
      Next(w, Consume(v, now)).served[b] == w.served[b] + 1 <==>
        && b in w.rows
        && (w.rows[b].maxDownloads == None || w.rows[b].downloads < w.rows[b].maxDownloads.value)
        && (w.rows[b].expiresAt == None || w.rows[b].expiresAt.value > now)
  {
  }

  /** The request that saw the last slot and took it retires the batch. */
  lemma LastRequestRetires(w: World, v: nat, now: Time)
    requires Inv(w) && Enabled(w, ArchiveIfSpent(v, now)) && w.viewers[v].batch in w.rows
    requires var b := w.rows[w.viewers[v].batch]; b.maxDownloads.Some? && w.viewers[v].seen + 1 >= b.maxDownloads.value
    ensures Next(w, ArchiveIfSpent(v, now)).rows[w.viewers[v].batch].archivedAt.Some?
  {
    assert ViewerOk(w, w.viewers[v]) && RowOk(w, w.viewers[v].batch);
  }

  /** The check after a download looks at a stale count, yet retires only a batch without a slot left. */
  lemma StaleCheckIsSound(w: World, v: nat, now: Time, id: nat)
    requires Inv(w) && Enabled(w, ArchiveIfSpent(v, now)) && id in w.rows && w.rows[id].archivedAt.None?
    requires Next(w, ArchiveIfSpent(v, now)).rows[id].archivedAt.Some?
    ensures Spent(w.rows[id].maxDownloads, w.rows[id].downloads)
  {
    assert ViewerOk(w, w.viewers[v]) && RowOk(w, id);
  }

  /** Archiving a batch is never undone, and its count only grows. */
  lemma ArchivingIsFinal(w: World, step: Step, id: nat)
    requires Inv(w) && Enabled(w, step) && id in w.rows && id in Next(w, step).rows
    ensures w.rows[id].archivedAt.Some? ==> Next(w, step).rows[id].archivedAt == w.rows[id].archivedAt
    ensures w.rows[id].downloads <= Next(w, step).rows[id].downloads
  {
    assert RowOk(w, id);
  }
}
