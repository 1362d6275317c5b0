/** How many downloads a link serves, over any sequence of requests. */
module Downloads {
  import opened Options
  import opened Tables
  import opened Storage
  import opened Transactions
  import opened Lifecycle
  import opened Server

  /** The count after requests at these times. */
  function Taken(max: Option<int>, expires: Option<Time>, d: nat, times: seq<Time>): nat {
    if times == [] then d
    else
      var k := Taken(max, expires, d, times[..|times| - 1]);
      if HasSlot(max, k, expires, times[|times| - 1]) then k + 1 else k
  }

  /** All requests come before the link expires. */
  predicate Early(times: seq<Time>, expires: Option<Time>) {
    forall i :: 0 <= i < |times| ==> expires == None || times[i] < expires.value
  }

  /** Before the link expires, every request is counted until the limit is reached. */
  lemma {:induction false} TakenIs(max: Option<int>, expires: Option<Time>, d: nat, times: seq<Time>)
    requires Early(times, expires)
    ensures var k := Taken(max, expires, d, times);
      if max == None then k == d + |times|
      else if d >= max.value then k == d
      else if d + |times| <= max.value then k == d + |times|
      else k == max.value
  {
    hide HasSlot;
    SlotIff();
    if times != [] {
      TakenIs(max, expires, d, times[..|times| - 1]);
    }
  }

  /** A link without a limit serves every request before it expires and none from then on; a link with a limit serves
      exactly as many requests as it has slots left, the first ones, if they come before it expires. */
  ghost predicate ServesAsPromised(max: Option<int>, expires: Option<Time>, d: nat, times: seq<Time>, now: Time, served: bool) {
    && (expires.Some? && now >= expires.value ==> !served)
    && (max == None ==> (served <==> expires == None || now < expires.value))
    && (max.Some? && Early(times, expires) && (expires == None || now < expires.value) ==>
          (served <==> d + |times| < max.value))
  }

  lemma SlotAfter(max: Option<int>, expires: Option<Time>, d: nat, times: seq<Time>, now: Time)
    ensures ServesAsPromised(max, expires, d, times, now, HasSlot(max, Taken(max, expires, d, times), expires, now))
  {
    hide HasSlot, Taken;
    SlotIff();
    if Early(times, expires) {
      TakenIs(max, expires, d, times);
    }
  }

  // ----- files

  /** The table after download requests for one link. */
  function FileRequests(db: Db, id: nat, times: seq<Time>): Db {
    if times == [] then db
    else ConsumeFile(FileRequests(db, id, times[..|times| - 1]), times[|times| - 1], id)
  }

  lemma {:induction false} FileAfter(db: Db, id: nat, times: seq<Time>, i: nat)
    requires i < |db.files|
    ensures var f := db.files[i];
      && |FileRequests(db, id, times).files| == |db.files|
      && FileRequests(db, id, times).files[i] ==
           if f.id == id then f.(downloads := Taken(f.maxDownloads, f.expiresAt, f.downloads, times)) else f
  {
    hide HasSlot;
    if times != [] {
      FileAfter(db, id, times[..|times| - 1], i);
    }
  }

  /** After any earlier requests, a file link serves the next one as promised. */
  lemma FirstRequestsServed(db: Db, i: nat, times: seq<Time>, now: Time)
    requires Unique(db.files) && i < |db.files|
    ensures var f := db.files[i];
      ServesAsPromised(f.maxDownloads, f.expiresAt, f.downloads, times, now,
                       Counts(FileRequests(db, f.id, times), f.id, now))
  {
    hide HasSlot, Unique, Taken, FileRequests, ServesAsPromised, Counts;
    var f := db.files[i];
    FileAfter(db, f.id, times, i);
    OnlyRow(db, f.id, times, i, now);
    SlotAfter(f.maxDownloads, f.expiresAt, f.downloads, times, now);
  }

  lemma OnlyRow(db: Db, id: nat, times: seq<Time>, i: nat, now: Time)
    requires Unique(db.files) && i < |db.files| && db.files[i].id == id
    ensures |FileRequests(db, id, times).files| == |db.files|
    ensures var g := FileRequests(db, id, times).files[i];
      Counts(FileRequests(db, id, times), id, now) <==> HasSlot(g.maxDownloads, g.downloads, g.expiresAt, now)
  {
    hide HasSlot, Unique, Taken, FileRequests;
    FileAfter(db, id, times, i);
    var files := FileRequests(db, id, times).files;
    if f :| f in files && f.id == id && HasSlot(f.maxDownloads, f.downloads, f.expiresAt, now) {
      var j: nat :| j < |files| && files[j] == f;
      FileAfter(db, id, times, j);
      if i < j {
        UniqueAt(db.files, i, j);
      } else if j < i {
        UniqueAt(db.files, j, i);
      }
    }
  }

  // ----- batches

  /** The UPDATE of a batch download finds a row with a free slot. */
  predicate BatchCounts(db: Db, id: nat, now: Time) {
    exists b :: b in db.batches && b.id == id && HasSlot(b.maxDownloads, b.downloads, b.expiresAt, now)
  }

  function BatchRequests(db: Db, id: nat, times: seq<Time>): Db {
    if times == [] then db
    else ConsumeBatch(BatchRequests(db, id, times[..|times| - 1]), times[|times| - 1], id)
  }

  lemma {:induction false} BatchAfter(db: Db, id: nat, times: seq<Time>, i: nat)
    requires i < |db.batches|
    ensures var b := db.batches[i];
      && |BatchRequests(db, id, times).batches| == |db.batches|
      && BatchRequests(db, id, times).batches[i] ==
           if b.id == id then b.(downloads := Taken(b.maxDownloads, b.expiresAt, b.downloads, times)) else b
  {
    hide HasSlot;
    if times != [] {
      BatchAfter(db, id, times[..|times| - 1], i);
    }
  }

  /** The same for the member files of a batch link. */
  lemma FirstMembersServed(db: Db, i: nat, times: seq<Time>, now: Time)
    requires i < |db.batches| && forall j :: 0 <= j < |db.batches| && j != i ==> db.batches[j].id != db.batches[i].id
    ensures var b := db.batches[i];
      ServesAsPromised(b.maxDownloads, b.expiresAt, b.downloads, times, now,
                       BatchCounts(BatchRequests(db, b.id, times), b.id, now))
  {
    hide HasSlot, Taken, BatchRequests, ServesAsPromised;
    var b := db.batches[i];
    BatchAfter(db, b.id, times, i);
    var batches := BatchRequests(db, b.id, times).batches;
    assert batches[i] in batches;
    forall g | g in batches && g.id == b.id ensures g == batches[i] {
      var j: nat :| j < |batches| && batches[j] == g;
      BatchAfter(db, b.id, times, j);
    }
    SlotAfter(b.maxDownloads, b.expiresAt, b.downloads, times, now);
  }
}
